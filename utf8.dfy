/**
 * UTF-8 as defined by section 4 of RFC 3629 ("Syntax of UTF-8 Byte Sequences"):
 * the well-formedness check that Rust's `std::str::from_utf8` performs, the
 * encoding of a Rust `char` (a Unicode scalar value, as Dafny's `char`) into
 * bytes, and the decoding of a well-formed byte sequence back into characters.
 */
module Utf8 {
  import Arith

  type Byte = x: int | 0 <= x < 256

  /** UTF8-tail = %x80-BF */
  predicate Tail(b: Byte) { 0x80 <= b <= 0xBF }

  /**
   * The length of the well-formed UTF-8 character at the head of `b`, or 0 when
   * `b` does not start with one (the alternatives of UTF8-1 .. UTF8-4).
   */
  function Width(b: seq<Byte>): (w: nat)
    ensures w <= 4 && w <= |b|
    ensures w == 0 <==> (|b| == 0 || !WellFormedHead(b))
  {
    if |b| == 0 then 0
    else if b[0] <= 0x7F then 1
    else if 0xC2 <= b[0] <= 0xDF then
      if |b| >= 2 && Tail(b[1]) then 2 else 0
    else if b[0] == 0xE0 then
      if |b| >= 3 && 0xA0 <= b[1] <= 0xBF && Tail(b[2]) then 3 else 0
    else if 0xE1 <= b[0] <= 0xEC || 0xEE <= b[0] <= 0xEF then
      if |b| >= 3 && Tail(b[1]) && Tail(b[2]) then 3 else 0
    else if b[0] == 0xED then
      if |b| >= 3 && 0x80 <= b[1] <= 0x9F && Tail(b[2]) then 3 else 0
    else if b[0] == 0xF0 then
      if |b| >= 4 && 0x90 <= b[1] <= 0xBF && Tail(b[2]) && Tail(b[3]) then 4 else 0
    else if 0xF1 <= b[0] <= 0xF3 then
      if |b| >= 4 && Tail(b[1]) && Tail(b[2]) && Tail(b[3]) then 4 else 0
    else if b[0] == 0xF4 then
      if |b| >= 4 && 0x80 <= b[1] <= 0x8F && Tail(b[2]) && Tail(b[3]) then 4 else 0
    else 0
  }

  /** The RFC 3629 grammar of one character, stated as a disjunction of its alternatives. */
  ghost predicate WellFormedHead(b: seq<Byte>)
    requires |b| > 0
  {
    || b[0] <= 0x7F
    || (0xC2 <= b[0] <= 0xDF && |b| >= 2 && Tail(b[1]))
    || (b[0] == 0xE0 && |b| >= 3 && 0xA0 <= b[1] <= 0xBF && Tail(b[2]))
    || ((0xE1 <= b[0] <= 0xEC || 0xEE <= b[0] <= 0xEF) && |b| >= 3 && Tail(b[1]) && Tail(b[2]))
    || (b[0] == 0xED && |b| >= 3 && 0x80 <= b[1] <= 0x9F && Tail(b[2]))
    || (b[0] == 0xF0 && |b| >= 4 && 0x90 <= b[1] <= 0xBF && Tail(b[2]) && Tail(b[3]))
    || (0xF1 <= b[0] <= 0xF3 && |b| >= 4 && Tail(b[1]) && Tail(b[2]) && Tail(b[3]))
    || (b[0] == 0xF4 && |b| >= 4 && 0x80 <= b[1] <= 0x8F && Tail(b[2]) && Tail(b[3]))
  }

  /** UTF8-octets = *( UTF8-char ) */
  predicate Valid(b: seq<Byte>)
    decreases |b|
  {
    |b| == 0 || (Width(b) > 0 && Valid(b[Width(b)..]))
  }

  /** The UTF-8 encoding of one Unicode scalar value. */
  function EncodeChar(c: char): (r: seq<Byte>)
    ensures 1 <= |r| <= 4
  {
    var cp := c as int;
    if cp < 0x80 then [cp]
    else if cp < 0x800 then [0xC0 + cp / 64, 0x80 + cp % 64]
    else if cp < 0x10000 then [0xE0 + cp / 4096, 0x80 + cp / 64 % 64, 0x80 + cp % 64]
    else [0xF0 + cp / 262144, 0x80 + cp / 4096 % 64, 0x80 + cp / 64 % 64, 0x80 + cp % 64]
  }

  function Encode(s: string): (r: seq<Byte>)
    ensures |r| >= |s|
  {
    if |s| == 0 then [] else EncodeChar(s[0]) + Encode(s[1..])
  }

  /** The scalar value held by the well-formed character at the head of `b`. */
  function CodePoint(b: seq<Byte>): (cp: int)
    requires Width(b) > 0
    ensures 0 <= cp < 0xD800 || 0xE000 <= cp < 0x11_0000
  {
    var w := Width(b);
    var b0: int, b1: int, b2: int, b3: int :=
      b[0], if w > 1 then b[1] else 0, if w > 2 then b[2] else 0, if w > 3 then b[3] else 0;
    if w == 1 then b0
    else if w == 2 then (b0 - 0xC0) * 64 + (b1 - 0x80)
    else if w == 3 then (b0 - 0xE0) * 4096 + (b1 - 0x80) * 64 + (b2 - 0x80)
    else (b0 - 0xF0) * 262144 + (b1 - 0x80) * 4096 + (b2 - 0x80) * 64 + (b3 - 0x80)
  }

  function DecodeChar(b: seq<Byte>): char
    requires Width(b) > 0
  {
    CodePoint(b) as char
  }

  /** What `std::str::from_utf8` produces from well-formed bytes. */
  function Decode(b: seq<Byte>): (s: string)
    requires Valid(b)
    ensures |s| <= |b|
    decreases |b|
  {
    if |b| == 0 then [] else [DecodeChar(b)] + Decode(b[Width(b)..])
  }

  /** An encoded character is recognised as one character of the same length, whatever follows it. */
  lemma EncodeCharWidth(c: char, rest: seq<Byte>)
    ensures Width(EncodeChar(c) + rest) == |EncodeChar(c)|
    ensures (EncodeChar(c) + rest)[..|EncodeChar(c)|] == EncodeChar(c)
    ensures DecodeChar(EncodeChar(c) + rest) == c
  {
    var e := EncodeChar(c);
    EncodeCharHead(c);
    CodePointPrefix(e, rest);
    assert (e + rest)[..|e|] == e;
  }

  /** An encoded character is one well-formed character holding its scalar value. */
  lemma EncodeCharHead(c: char)
    ensures Width(EncodeChar(c)) == |EncodeChar(c)| && CodePoint(EncodeChar(c)) == c as int
  {
    var cp := c as int;
    if cp < 0x80 {
    } else if cp < 0x800 {
      EncodeTwo(cp);
    } else if cp < 0x10000 {
      EncodeThree(cp);
    } else {
      EncodeFour(cp);
    }
  }

  /** The code point read from the head character does not depend on what follows it. */
  lemma CodePointPrefix(a: seq<Byte>, b: seq<Byte>)
    requires Width(a) > 0
    ensures Width(a + b) == Width(a) && CodePoint(a + b) == CodePoint(a)
  {
    WidthPrefix(a, b);
    var ab := a + b;
    assert ab[0] == a[0];
    assert |a| >= 2 ==> ab[1] == a[1];
    assert |a| >= 3 ==> ab[2] == a[2];
    assert |a| >= 4 ==> ab[3] == a[3];
  }

  lemma EncodeTwo(cp: int)
    requires 0x80 <= cp < 0x800
    ensures var e: seq<Byte> := [0xC0 + cp / 64, 0x80 + cp % 64]; Width(e) == 2 && CodePoint(e) == cp
  {
    assert 2 <= cp / 64 < 32;
    assert (cp / 64) * 64 + cp % 64 == cp;
  }

  lemma EncodeThree(cp: int)
    requires 0x800 <= cp < 0x10000 && (cp < 0xD800 || 0xE000 <= cp)
    ensures var e: seq<Byte> := [0xE0 + cp / 4096, 0x80 + cp / 64 % 64, 0x80 + cp % 64];
      Width(e) == 3 && CodePoint(e) == cp
  {
    assert cp / 4096 < 16;
    assert cp / 4096 == 0 ==> 32 <= cp / 64 % 64;
    assert cp / 4096 == 13 ==> cp / 64 % 64 < 32;
    assert (cp / 4096) * 4096 + (cp / 64 % 64) * 64 + cp % 64 == cp;
  }

  lemma EncodeFour(cp: int)
    requires 0x10000 <= cp < 0x11_0000
    ensures var e: seq<Byte> := [0xF0 + cp / 262144, 0x80 + cp / 4096 % 64, 0x80 + cp / 64 % 64, 0x80 + cp % 64];
      Width(e) == 4 && CodePoint(e) == cp
  {
    var x3, t := cp % 64, cp / 64;
    var x2, t2 := t % 64, t / 64;
    var x1, x0 := t2 % 64, t2 / 64;
    assert cp == t * 64 + x3 && t == t2 * 64 + x2 && t2 == x0 * 64 + x1;
    Arith.DivModUnique(cp, t2, x2 * 64 + x3, 4096);
    Arith.DivModUnique(cp, x0, x1 * 4096 + x2 * 64 + x3, 262144);
    assert x0 <= 4 && (x0 == 4 ==> x1 < 16) && (x0 == 0 ==> 16 <= x1);
  }

  lemma Split2(cp: int, hi: int, lo: int)
    requires 0 <= lo < 64 && cp == hi * 64 + lo
    ensures cp / 64 == hi && cp % 64 == lo
  {
  }

  /** Re-encoding the head character gives back exactly the bytes it was read from. */
  lemma DecodeCharWidth(b: seq<Byte>)
    requires Width(b) > 0
    ensures EncodeChar(DecodeChar(b)) == b[..Width(b)]
  {
    var w := Width(b);
    var cp := CodePoint(b);
    assert DecodeChar(b) as int == cp;
    if w == 2 {
      var b0: int, b1: int := b[0], b[1];
      Split2(cp, b0 - 0xC0, b1 - 0x80);
    } else if w == 3 {
      var b0: int, b1: int, b2: int := b[0], b[1], b[2];
      var hi := (b0 - 0xE0) * 64 + (b1 - 0x80);
      Split2(cp, hi, b2 - 0x80);
      Split2(hi, b0 - 0xE0, b1 - 0x80);
      assert cp / 4096 == hi / 64;
    } else if w == 4 {
      var b0: int, b1: int, b2: int, b3: int := b[0], b[1], b[2], b[3];
      var top := (b0 - 0xF0) * 64 + (b1 - 0x80);
      var hi := top * 64 + (b2 - 0x80);
      Split2(cp, hi, b3 - 0x80);
      Split2(hi, top, b2 - 0x80);
      Split2(top, b0 - 0xF0, b1 - 0x80);
      assert cp / 4096 == hi / 64;
      assert cp / 262144 == top / 64;
    }
  }

  /** Every encoded string is well-formed UTF-8. */
  lemma {:induction false} EncodeValid(s: string)
    ensures Valid(Encode(s))
  {
    if |s| > 0 {
      EncodeValid(s[1..]);
      var e := EncodeChar(s[0]);
      EncodeCharWidth(s[0], Encode(s[1..]));
      assert Encode(s)[|e|..] == Encode(s[1..]);
    }
  }

  /** Decoding inverts encoding. */
  lemma {:induction false} DecodeEncode(s: string)
    ensures Valid(Encode(s)) && Decode(Encode(s)) == s
  {
    EncodeValid(s);
    if |s| > 0 {
      DecodeEncode(s[1..]);
      var e := EncodeChar(s[0]);
      EncodeCharWidth(s[0], Encode(s[1..]));
      assert Encode(s)[|e|..] == Encode(s[1..]);
    }
  }

  /** Encoding inverts decoding: `from_utf8` loses nothing. */
  lemma {:induction false} EncodeDecode(b: seq<Byte>)
    requires Valid(b)
    ensures Encode(Decode(b)) == b
    decreases |b|
  {
    if |b| > 0 {
      var tail := Decode(b[Width(b)..]);
      DecodeHead(b);
      EncodeDecode(b[Width(b)..]);
      EncodeDecodeStep(b, tail);
    }
  }

  /** The induction step: the head character re-encoded in front of the re-encoded rest. */
  lemma EncodeDecodeStep(b: seq<Byte>, tail: string)
    requires Width(b) > 0 && Encode(tail) == b[Width(b)..]
    ensures Encode([DecodeChar(b)] + tail) == b
  {
    EncodeHead(b, tail);
    assert b[..Width(b)] + b[Width(b)..] == b;
  }

  lemma DecodeHead(b: seq<Byte>)
    requires Valid(b) && |b| > 0
    ensures Valid(b[Width(b)..]) && Decode(b) == [DecodeChar(b)] + Decode(b[Width(b)..])
  {
  }

  /** Encoding a decoded head character in front of `s` gives back the bytes it was read from. */
  lemma EncodeHead(b: seq<Byte>, s: string)
    requires Width(b) > 0
    ensures Encode([DecodeChar(b)] + s) == b[..Width(b)] + Encode(s)
  {
    DecodeCharWidth(b);
    assert ([DecodeChar(b)] + s)[1..] == s;
  }

  /** Joining two well-formed byte sequences gives a well-formed one. */
  lemma {:induction false} ValidConcat(a: seq<Byte>, b: seq<Byte>)
    requires Valid(a) && Valid(b)
    ensures Valid(a + b)
    decreases |a|
  {
    if |a| > 0 {
      var w := Width(a);
      WidthPrefix(a, b);
      ValidConcat(a[w..], b);
      SliceConcat(a, b, w);
    } else {
      assert a + b == b;
    }
  }

  lemma SliceConcat<T>(a: seq<T>, b: seq<T>, k: nat)
    requires k <= |a|
    ensures (a + b)[k..] == a[k..] + b
  {
  }

  /** The width of the head character does not depend on what follows it. */
  lemma WidthPrefix(a: seq<Byte>, b: seq<Byte>)
    requires Width(a) > 0
    ensures Width(a + b) == Width(a)
  {
    var ab := a + b;
    assert ab[0] == a[0];
    assert |a| >= 2 ==> ab[1] == a[1];
    assert |a| >= 3 ==> ab[2] == a[2];
    assert |a| >= 4 ==> ab[3] == a[3];
  }

  /** The bytes of an ASCII-only string are its code points. */
  lemma {:induction false} EncodeAscii(s: string)
    requires forall i :: 0 <= i < |s| ==> s[i] as int < 0x80
    ensures |Encode(s)| == |s|
    ensures forall i :: 0 <= i < |s| ==> Encode(s)[i] == s[i] as int
  {
    if |s| > 0 {
      EncodeAscii(s[1..]);
    }
  }

  /** Encoding distributes over concatenation. */
  lemma {:induction false} EncodeConcat(s: string, t: string)
    ensures Encode(s + t) == Encode(s) + Encode(t)
  {
    if |s| > 0 {
      EncodeConcat(s[1..], t);
      assert (s + t)[0] == s[0];
      assert (s + t)[1..] == s[1..] + t;
      calc {
        Encode(s + t);
        EncodeChar(s[0]) + Encode(s[1..] + t);
        EncodeChar(s[0]) + (Encode(s[1..]) + Encode(t));
        (EncodeChar(s[0]) + Encode(s[1..])) + Encode(t);
      }
    } else {
      assert s + t == t;
    }
  }
}
