/**
 * UTF-8, as Rust uses it: a `&str` handed to sled becomes its UTF-8 bytes, and
 * `String::from_utf8` turns bytes back into a string or fails with a
 * `FromUtf8Error` naming where the bad sequence starts and how long it is.
 * The validation follows the standard library's `run_utf8_validation` (the
 * accepted second-byte ranges and the error lengths it reports).
 */
module Utf8 {
  import opened Wrappers
  import opened Text

  type byte = x: int | 0 <= x < 256

  /** `Utf8Error { valid_up_to, error_len }` of the standard library. */
  datatype Utf8Error = Utf8Error(validUpTo: nat, errorLen: Option<nat>)

  predicate IsContinuation(b: byte) { 0x80 <= b < 0xC0 }

  /** The encoding of one Unicode scalar value. */
  function EncodeChar(c: char): (r: seq<byte>)
    ensures 1 <= |r| <= 4
  {
    var cp := c as int;
    if cp < 0x80 then [cp]
    else if cp < 0x800 then [0xC0 + cp / 64, 0x80 + cp % 64]
    else if cp < 0x10000 then [0xE0 + cp / 4096, 0x80 + (cp / 64) % 64, 0x80 + cp % 64]
    else [0xF0 + cp / 262144, 0x80 + (cp / 4096) % 64, 0x80 + (cp / 64) % 64, 0x80 + cp % 64]
  }

  /** The bytes of a string (`str::as_bytes`). */
  function Encode(s: string): seq<byte>
  {
    if s == [] then [] else EncodeChar(s[0]) + Encode(s[1..])
  }

  /** What the validator finds at the start of a non-empty byte string. */
  datatype Step = Char(c: char, width: nat) | Invalid(len: nat) | Incomplete

  /** Whether `b1` may follow the lead byte `b0` of a three- or four-byte sequence. */
  predicate SecondByteOk(b0: byte, b1: byte)
  {
    if b0 == 0xE0 then 0xA0 <= b1 <= 0xBF
    else if b0 == 0xED then 0x80 <= b1 <= 0x9F
    else if b0 == 0xF0 then 0x90 <= b1 <= 0xBF
    else if b0 == 0xF4 then 0x80 <= b1 <= 0x8F
    else IsContinuation(b1)
  }

  function DecodeStep(b: seq<byte>): (r: Step)
    requires |b| > 0
    ensures r.Char? ==> 1 <= r.width <= |b| && r.width <= 4
    ensures r.Invalid? ==> 1 <= r.len <= 3
  {
    var b0 := b[0] as int;
    if b0 < 0x80 then Char(b0 as char, 1)
    else if 0xC2 <= b0 <= 0xDF then
      if |b| < 2 then Incomplete
      else if !IsContinuation(b[1]) then Invalid(1)
      else Char(((b0 - 0xC0) * 64 + (b[1] as int - 0x80)) as char, 2)
    else if 0xE0 <= b0 <= 0xEF then
      if |b| < 2 then Incomplete
      else if !SecondByteOk(b[0], b[1]) then Invalid(1)
      else if |b| < 3 then Incomplete
      else if !IsContinuation(b[2]) then Invalid(2)
      else Char(((b0 - 0xE0) * 4096 + (b[1] as int - 0x80) * 64 + (b[2] as int - 0x80)) as char, 3)
    else if 0xF0 <= b0 <= 0xF4 then
      if |b| < 2 then Incomplete
      else if !SecondByteOk(b[0], b[1]) then Invalid(1)
      else if |b| < 3 then Incomplete
      else if !IsContinuation(b[2]) then Invalid(2)
      else if |b| < 4 then Incomplete
      else if !IsContinuation(b[3]) then Invalid(3)
      else Char(((b0 - 0xF0) * 262144 + (b[1] as int - 0x80) * 4096 + (b[2] as int - 0x80) * 64 + (b[3] as int - 0x80)) as char, 4)
    else Invalid(1)
  }

  /** `String::from_utf8`. */
  function Decode(b: seq<byte>): (r: Result<string, Utf8Error>)
    ensures r.Err? ==> r.error.validUpTo < |b|
    decreases |b|
  {
    if b == [] then Ok([])
    else match DecodeStep(b)
      case Char(c, w) =>
        (match Decode(b[w..])
         case Ok(s) => Ok([c] + s)
         case Err(e) => Err(Utf8Error(e.validUpTo + w, e.errorLen)))
      case Invalid(n) => Err(Utf8Error(0, Some(n)))
      case Incomplete => Err(Utf8Error(0, None))
  }

  predicate IsUtf8(b: seq<byte>) { Decode(b).Ok? }

  /** The `Display` text of `FromUtf8Error`. */
  function ErrorText(e: Utf8Error): string
  {
    match e.errorLen
    case Some(n) => "invalid utf-8 sequence of " + NatToString(n) + " bytes from index " + NatToString(e.validUpTo)
    case None => "incomplete utf-8 byte sequence from index " + NatToString(e.validUpTo)
  }

  // ---------------------------------------------------------------- lemmas

  /** Decoding the encoding of one character gives that character back. */
  lemma DecodeStepOfEncodeChar(c: char, rest: seq<byte>)
    ensures DecodeStep(EncodeChar(c) + rest) == Char(c, |EncodeChar(c)|)
  {
    var cp := c as int;
    var b := EncodeChar(c) + rest;
    if cp < 0x80 {
    } else if cp < 0x800 {
      var x0, x1 := b[0] as int, b[1] as int;
      assert x0 == 0xC0 + cp / 64 && x1 == 0x80 + cp % 64;
      assert (x0 - 0xC0) * 64 + (x1 - 0x80) == cp;
    } else if cp < 0x10000 {
      var q := cp / 64;
      var x0, x1, x2 := b[0] as int, b[1] as int, b[2] as int;
      assert cp / 4096 == q / 64;
      assert x0 == 0xE0 + q / 64 && x1 == 0x80 + q % 64 && x2 == 0x80 + cp % 64;
      assert (x0 - 0xE0) * 4096 + (x1 - 0x80) * 64 + (x2 - 0x80) == cp;
      assert SecondByteOk(b[0], b[1]);
    } else {
      var q := cp / 64;
      var q2 := q / 64;
      var x0, x1, x2, x3 := b[0] as int, b[1] as int, b[2] as int, b[3] as int;
      assert cp / 4096 == q2;
      assert cp / 262144 == q2 / 64;
      assert x0 == 0xF0 + q2 / 64 && x1 == 0x80 + q2 % 64 && x2 == 0x80 + q % 64 && x3 == 0x80 + cp % 64;
      assert (x0 - 0xF0) * 262144 + (x1 - 0x80) * 4096 + (x2 - 0x80) * 64 + (x3 - 0x80) == cp;
      assert SecondByteOk(b[0], b[1]);
    }
  }

  lemma {:induction false} EncodeAppend(a: string, b: string)
    ensures Encode(a + b) == Encode(a) + Encode(b)
  {
    if a != [] {
      assert (a + b)[0] == a[0];
      assert (a + b)[1..] == a[1..] + b;
      EncodeAppend(a[1..], b);
      calc {
        Encode(a + b);
        EncodeChar(a[0]) + Encode(a[1..] + b);
        EncodeChar(a[0]) + (Encode(a[1..]) + Encode(b));
        (EncodeChar(a[0]) + Encode(a[1..])) + Encode(b);
      }
    } else {
      assert a + b == b;
    }
  }

  /** `String::from_utf8(s.as_bytes())` is `Ok(s)`. */
  lemma {:induction false} DecodeEncode(s: string)
    ensures Decode(Encode(s)) == Ok(s)
  {
    if s != [] {
      var e := EncodeChar(s[0]);
      DecodeStepOfEncodeChar(s[0], Encode(s[1..]));
      assert (e + Encode(s[1..]))[|e|..] == Encode(s[1..]);
      DecodeEncode(s[1..]);
      assert [s[0]] + s[1..] == s;
    }
  }

  /** Splitting a two-byte code point back into its lead and continuation payloads. */
  lemma Unpack2(x0: int, x1: int)
    requires 0xC2 <= x0 <= 0xDF && 0x80 <= x1 < 0xC0
    ensures var cp := (x0 - 0xC0) * 64 + (x1 - 0x80);
      cp / 64 == x0 - 0xC0 && cp % 64 == x1 - 0x80
  {
  }

  lemma Unpack3(x0: int, x1: int, x2: int)
    requires 0xE0 <= x0 <= 0xEF && 0x80 <= x1 < 0xC0 && 0x80 <= x2 < 0xC0
    ensures var cp := (x0 - 0xE0) * 4096 + (x1 - 0x80) * 64 + (x2 - 0x80);
      cp / 4096 == x0 - 0xE0 && (cp / 64) % 64 == x1 - 0x80 && cp % 64 == x2 - 0x80
  {
    var cp := (x0 - 0xE0) * 4096 + (x1 - 0x80) * 64 + (x2 - 0x80);
    var q := (x0 - 0xE0) * 64 + (x1 - 0x80);
    assert cp == q * 64 + (x2 - 0x80);
    assert cp / 64 == q && cp % 64 == x2 - 0x80;
    assert q / 64 == x0 - 0xE0 && q % 64 == x1 - 0x80;
  }

  lemma Unpack4(x0: int, x1: int, x2: int, x3: int)
    requires 0xF0 <= x0 <= 0xF4 && 0x80 <= x1 < 0xC0 && 0x80 <= x2 < 0xC0 && 0x80 <= x3 < 0xC0
    ensures var cp := (x0 - 0xF0) * 262144 + (x1 - 0x80) * 4096 + (x2 - 0x80) * 64 + (x3 - 0x80);
      cp / 262144 == x0 - 0xF0 && (cp / 4096) % 64 == x1 - 0x80 && (cp / 64) % 64 == x2 - 0x80 && cp % 64 == x3 - 0x80
  {
    var cp := (x0 - 0xF0) * 262144 + (x1 - 0x80) * 4096 + (x2 - 0x80) * 64 + (x3 - 0x80);
    var q1 := x0 - 0xF0;
    var q2 := q1 * 64 + (x1 - 0x80);
    var q3 := q2 * 64 + (x2 - 0x80);
    assert cp == q3 * 64 + (x3 - 0x80);
    assert cp / 64 == q3 && cp % 64 == x3 - 0x80;
    assert q3 / 64 == q2 && q3 % 64 == x2 - 0x80;
    assert q2 / 64 == q1 && q2 % 64 == x1 - 0x80;
    var r2 := (x2 - 0x80) * 64 + (x3 - 0x80);
    assert cp == q2 * 4096 + r2 && 0 <= r2 < 4096;
    assert cp / 4096 == q2;
    var r1 := (x1 - 0x80) * 4096 + r2;
    assert cp == q1 * 262144 + r1 && 0 <= r1 < 262144;
  }

  /** A successful decode step consumed exactly the encoding of the character it returned. */
  lemma EncodeCharOfDecodeStep(b: seq<byte>)
    requires |b| > 0 && DecodeStep(b).Char?
    ensures EncodeChar(DecodeStep(b).c) == b[..DecodeStep(b).width]
  {
    var x0 := b[0] as int;
    if x0 < 0x80 {
    } else if 0xC2 <= x0 <= 0xDF {
      Unpack2(x0, b[1] as int);
    } else if 0xE0 <= x0 <= 0xEF {
      Unpack3(x0, b[1] as int, b[2] as int);
    } else {
      Unpack4(x0, b[1] as int, b[2] as int, b[3] as int);
    }
  }

  /** A successful decode starts with one whole character's encoding. */
  lemma DecodeHead(b: seq<byte>) returns (c: char, w: nat)
    requires b != [] && Decode(b).Ok?
    ensures 1 <= w <= |b| && EncodeChar(c) == b[..w]
    ensures Decode(b[w..]).Ok? && Decode(b).value == [c] + Decode(b[w..]).value
  {
    var step := DecodeStep(b);
    c, w := step.c, step.width;
    EncodeCharOfDecodeStep(b);
  }

  /** Only the encoding of a string decodes to it: `from_utf8` is injective on valid input. */
  lemma {:induction false} EncodeDecode(b: seq<byte>)
    requires Decode(b).Ok?
    ensures Encode(Decode(b).value) == b
    decreases |b|
  {
    if b != [] {
      var c, w := DecodeHead(b);
      var t := Decode(b[w..]).value;
      EncodeDecode(b[w..]);
      var s := [c] + t;
      assert s[0] == c && s[1..] == t;
      assert Encode(s) == EncodeChar(c) + Encode(t);
      assert b == b[..w] + b[w..];
    }
  }

  /** Two strings with the same bytes are the same string. */
  lemma EncodeInjective(s: string, t: string)
    requires Encode(s) == Encode(t)
    ensures s == t
  {
    DecodeEncode(s);
    DecodeEncode(t);
  }

  /** A character's encoding is never a proper prefix of another's: the lead byte fixes the width. */
  lemma EncodeCharUnique(c: char, d: char, x: seq<byte>, y: seq<byte>)
    requires EncodeChar(c) + x == EncodeChar(d) + y
    ensures c == d && x == y
  {
    DecodeStepOfEncodeChar(c, x);
    DecodeStepOfEncodeChar(d, y);
    var n := |EncodeChar(c)|;
    assert x == (EncodeChar(c) + x)[n..];
    assert y == (EncodeChar(d) + y)[n..];
  }

  /** If `z` starts with `e + y`, it is `e` followed by something that starts with `y`. */
  lemma PrefixSplit(x: seq<byte>, e: seq<byte>, y: seq<byte>, z: seq<byte>)
    requires x == e + y && |x| <= |z| && z[..|x|] == x
    ensures z == e + z[|e|..]
    ensures |y| <= |z[|e|..]| && z[|e|..][..|y|] == y
  {
    assert z[..|e|] == x[..|e|] == e;
    assert z[|e|..][..|y|] == x[|e|..];
  }

  /** The first character of a string whose bytes start with those of a non-empty `p` is `p`'s first character. */
  lemma BytePrefixHead(s: string, p: string)
    requires p != [] && |Encode(p)| <= |Encode(s)| && Encode(s)[..|Encode(p)|] == Encode(p)
    ensures s != [] && s[0] == p[0]
    ensures |Encode(p[1..])| <= |Encode(s[1..])| && Encode(s[1..])[..|Encode(p[1..])|] == Encode(p[1..])
  {
    var e := EncodeChar(p[0]);
    assert Encode(p) == e + Encode(p[1..]);
    if s == [] {
      assert false;
    }
    PrefixSplit(Encode(p), e, Encode(p[1..]), Encode(s));
    EncodeCharUnique(p[0], s[0], Encode(s)[|e|..], Encode(s[1..]));
  }

  /** Byte-prefix and character-prefix agree: `scan_prefix(p.as_bytes())` finds exactly the strings starting with `p`. */
  lemma {:induction false} EncodePrefix(s: string, p: string)
    ensures (|Encode(p)| <= |Encode(s)| && Encode(s)[..|Encode(p)|] == Encode(p)) <==> (|p| <= |s| && s[..|p|] == p)
    decreases |p|
  {
    if |p| <= |s| && s[..|p|] == p {
      assert s == p + s[|p|..];
      EncodeAppend(p, s[|p|..]);
    }
    if p != [] && |Encode(p)| <= |Encode(s)| && Encode(s)[..|Encode(p)|] == Encode(p) {
      BytePrefixHead(s, p);
      EncodePrefix(s[1..], p[1..]);
      assert s == [s[0]] + s[1..] && p == [p[0]] + p[1..];
    }
  }
}
