module Wrappers {
  datatype Option<+T> = None | Some(value: T)
}

/**
 * The pieces of Rust's `str` and slice API that the metrics use on the text
 * they get from their collaborators: decimal formatting of integers (`{}` on a
 * `u8`/`u64`/`usize`), `<uN as FromStr>::from_str`, `char::is_whitespace`,
 * `str::trim`, `str::split_whitespace`, `str::lines().count()`,
 * `str::contains` and `str::strip_suffix`.
 */
module Text {
  import opened Wrappers

  predicate IsDigit(c: char) { '0' <= c <= '9' }

  predicate AllDigits(s: string) { forall i :: 0 <= i < |s| ==> IsDigit(s[i]) }

  function DigitChar(d: nat): (c: char)
    requires d < 10
    ensures IsDigit(c) && c as int - '0' as int == d
  {
    ('0' as int + d) as char
  }

  /** `{}` applied to an unsigned integer: its shortest decimal representation. */
  function Decimal(n: nat): (s: string)
    ensures |s| > 0 && AllDigits(s)
    ensures |s| > 1 ==> s[0] != '0'
    ensures n < 10 <==> |s| == 1
    decreases n
  {
    if n < 10 then [DigitChar(n)] else Decimal(n / 10) + [DigitChar(n % 10)]
  }

  /** The number a string of decimal digits denotes (most significant digit first). */
  function DigitsValue(s: string): nat
    requires AllDigits(s)
  {
    if |s| == 0 then 0
    else DigitsValue(s[..|s| - 1]) * 10 + (s[|s| - 1] as int - '0' as int)
  }

  /**
   * `s.parse::<uN>()` with `max` the type's largest value: an optional '+'
   * followed by at least one digit, and a value that fits.
   */
  function ParseUnsigned(s: string, max: nat): (r: Option<nat>)
    ensures r.Some? ==> r.value <= max
    ensures r.Some? ==> |s| > 0 && (IsDigit(s[0]) || s[0] == '+')
    ensures var d := UnsignedDigits(s);
      && (r.Some? <==> |d| > 0 && AllDigits(d) && DigitsValue(d) <= max)
      && (r.Some? ==> r.value == DigitsValue(d))
  {
    var digits := UnsignedDigits(s);
    if |digits| == 0 || !AllDigits(digits) then None
    else if DigitsValue(digits) <= max then Some(DigitsValue(digits))
    else None
  }

  /** The digits `parse` reads: the input without one leading '+', when more follows it. */
  function UnsignedDigits(s: string): (d: string)
    ensures d == s || (|s| > 1 && s[0] == '+' && d == s[1..])
  {
    if |s| > 1 && s[0] == '+' then s[1..] else s
  }

  lemma {:induction false} DecimalValue(n: nat)
    ensures DigitsValue(Decimal(n)) == n
    decreases n
  {
    if n >= 10 {
      DecimalValue(n / 10);
      var s := Decimal(n);
      assert s[..|s| - 1] == Decimal(n / 10);
    }
  }

  /** Parsing inverts decimal formatting for every value that fits the type. */
  lemma ParseDecimal(n: nat, max: nat)
    requires n <= max
    ensures ParseUnsigned(Decimal(n), max) == Some(n)
  {
    DecimalValue(n);
  }

  /** `char::is_whitespace`: the Unicode White_Space property. */
  predicate IsWhitespace(c: char)
  {
    var v := c as int;
    || 0x09 <= v <= 0x0D || v == 0x20 || v == 0x85 || v == 0xA0 || v == 0x1680
    || 0x2000 <= v <= 0x200A || v == 0x2028 || v == 0x2029 || v == 0x202F || v == 0x205F
    || v == 0x3000
  }

  predicate NoWhitespace(s: string) { forall i :: 0 <= i < |s| ==> !IsWhitespace(s[i]) }

  predicate AllWhitespace(s: string) { forall i :: 0 <= i < |s| ==> IsWhitespace(s[i]) }

  /** `str::trim_start`. */
  function TrimStart(s: string): (r: string)
    ensures |r| <= |s| && r == s[|s| - |r|..]
    ensures AllWhitespace(s[..|s| - |r|])
    ensures |r| > 0 ==> !IsWhitespace(r[0])
  {
    if |s| > 0 && IsWhitespace(s[0]) then TrimStart(s[1..]) else s
  }

  /** `str::trim_end`. */
  function TrimEnd(s: string): (r: string)
    ensures |r| <= |s| && r == s[..|r|]
    ensures AllWhitespace(s[|r|..])
    ensures |r| > 0 ==> !IsWhitespace(r[|r| - 1])
  {
    if |s| > 0 && IsWhitespace(s[|s| - 1]) then TrimEnd(s[..|s| - 1]) else s
  }

  /** `str::trim`: `s` without its leading and its trailing whitespace. */
  function Trim(s: string): (r: string)
    ensures |r| <= |s|
    ensures |r| > 0 ==> !IsWhitespace(r[0]) && !IsWhitespace(r[|r| - 1])
    ensures exists i, j :: 0 <= i <= j <= |s| && r == s[i..j] && AllWhitespace(s[..i]) && AllWhitespace(s[j..])
    ensures |s| == 0 || (!IsWhitespace(s[0]) && !IsWhitespace(s[|s| - 1])) ==> r == s
  {
    var t := TrimEnd(s);
    var r := TrimStart(t);
    var i, j := |t| - |r|, |t|;
    assert r == s[i..j] && s[..i] == t[..i];
    r
  }

  /** The leading run of non-whitespace characters of `s`. */
  function Token(s: string): (t: string)
    ensures |t| <= |s| && t == s[..|t|] && NoWhitespace(t)
    ensures |t| < |s| ==> IsWhitespace(s[|t|])
  {
    if |s| == 0 || IsWhitespace(s[0]) then [] else [s[0]] + Token(s[1..])
  }

  /**
   * `str::split_whitespace`, collected: the maximal non-empty whitespace-free
   * pieces, in order. `s` is the pieces with runs of whitespace around and
   * between them, and the runs between two pieces are not empty.
   */
  function SplitWhitespace(s: string): (r: seq<string>)
    ensures forall k :: 0 <= k < |r| ==> |r[k]| > 0 && NoWhitespace(r[k])
    ensures exists gaps :: Separates(gaps, r, s)
    decreases |s|
  {
    if |s| == 0 then
      assert Separates([[]], [], s);
      []
    else if IsWhitespace(s[0]) then
      var r := SplitWhitespace(s[1..]);
      SeparatesSkip(s[0], r, s[1..]);
      assert [s[0]] + s[1..] == s;
      r
    else
      var tok := Token(s);
      var r := SplitWhitespace(s[|tok|..]);
      SeparatesToken(tok, r, s[|tok|..]);
      assert tok + s[|tok|..] == s;
      [tok] + r
  }

  /** The gaps and the pieces taken in turn: `gaps[0] + pieces[0] + gaps[1] + ... + gaps[|pieces|]`. */
  function Interleave(gaps: seq<string>, pieces: seq<string>): string
    requires |gaps| == |pieces| + 1
    decreases |pieces|
  {
    if |pieces| == 0 then gaps[0] else gaps[0] + pieces[0] + Interleave(gaps[1..], pieces[1..])
  }

  /**
   * `s` consists of the non-empty whitespace-free `pieces` separated by the
   * whitespace runs `gaps`: a run before, between and after them, where the
   * runs between two pieces are not empty.
   */
  predicate Separates(gaps: seq<string>, pieces: seq<string>, s: string)
  {
    && |gaps| == |pieces| + 1
    && (forall k :: 0 <= k < |gaps| ==> AllWhitespace(gaps[k]))
    && (forall k :: 0 < k < |pieces| ==> |gaps[k]| > 0)
    && (forall k :: 0 <= k < |pieces| ==> |pieces[k]| > 0 && NoWhitespace(pieces[k]))
    && Interleave(gaps, pieces) == s
  }

  /** A whitespace character in front joins the first gap. */
  lemma SeparatesSkip(c: char, pieces: seq<string>, s: string)
    requires IsWhitespace(c) && exists gaps :: Separates(gaps, pieces, s)
    ensures exists gaps :: Separates(gaps, pieces, [c] + s)
  {
    var gaps :| Separates(gaps, pieces, s);
    var gaps' := [[c] + gaps[0]] + gaps[1..];
    assert gaps'[1..] == gaps[1..];
    assert forall k :: 0 < k < |gaps'| ==> gaps'[k] == gaps[k];
    if |pieces| == 0 {
      assert Interleave(gaps', pieces) == [c] + s;
    } else {
      assert Interleave(gaps', pieces) == [c] + gaps[0] + pieces[0] + Interleave(gaps[1..], pieces[1..]);
    }
    assert Separates(gaps', pieces, [c] + s);
  }

  /** A piece in front, followed by whitespace or nothing, becomes the first piece. */
  lemma SeparatesToken(tok: string, pieces: seq<string>, s: string)
    requires |tok| > 0 && NoWhitespace(tok) && (|s| == 0 || IsWhitespace(s[0]))
    requires exists gaps :: Separates(gaps, pieces, s)
    ensures exists gaps :: Separates(gaps, [tok] + pieces, tok + s)
  {
    var gaps :| Separates(gaps, pieces, s);
    var gaps' := [[]] + gaps;
    var pieces' := [tok] + pieces;
    assert gaps'[1..] == gaps && pieces'[1..] == pieces;
    if |pieces| > 0 {
      assert s == gaps[0] + pieces[0] + Interleave(gaps[1..], pieces[1..]);
    }
    assert Interleave(gaps', pieces') == [] + tok + Interleave(gaps, pieces);
    assert [] + tok + s == tok + s;
    assert Separates(gaps', pieces', tok + s);
  }

  /**
   * The pieces are determined by the text: any way of laying out `s` as
   * pieces and whitespace gaps gives the pieces `split_whitespace` finds.
   */
  lemma {:induction false} SplitSeparated(gaps: seq<string>, pieces: seq<string>, s: string)
    requires Separates(gaps, pieces, s)
    ensures SplitWhitespace(s) == pieces
    decreases |s|
  {
    if |gaps[0]| > 0 {
      var gaps' := [gaps[0][1..]] + gaps[1..];
      assert gaps'[1..] == gaps[1..];
      assert forall k :: 0 < k < |gaps'| ==> gaps'[k] == gaps[k];
      assert s[0] == gaps[0][0];
      if |pieces| == 0 {
        assert Interleave(gaps', pieces) == s[1..];
      } else {
        assert s == [gaps[0][0]] + (gaps[0][1..] + pieces[0] + Interleave(gaps[1..], pieces[1..]));
        assert Interleave(gaps', pieces) == s[1..];
      }
      SplitSeparated(gaps', pieces, s[1..]);
    } else if |pieces| > 0 {
      var tok := pieces[0];
      var rest := Interleave(gaps[1..], pieces[1..]);
      assert s == tok + rest;
      if |pieces| > 1 {
        assert rest == gaps[1] + pieces[1] + Interleave(gaps[2..], pieces[2..]);
        assert rest[0] == gaps[1][0];
      } else if |rest| > 0 {
        assert rest == gaps[1];
      }
      TokenOf(tok, rest);
      assert s[|tok|..] == rest;
      assert forall k :: 0 <= k < |gaps| - 1 ==> gaps[1..][k] == gaps[k + 1];
      SplitSeparated(gaps[1..], pieces[1..], rest);
    }
  }

  /** `{:>w}`: `s` right-aligned in a field of at least `w` characters, padded with spaces. */
  function PadLeft(s: string, w: nat): (r: string)
    ensures |r| == if |s| >= w then |s| else w
    ensures r[|r| - |s|..] == s && forall i :: 0 <= i < |r| - |s| ==> r[i] == ' '
  {
    if |s| >= w then s else Spaces(w - |s|) + s
  }

  function Spaces(n: nat): (r: string)
    ensures |r| == n && forall i :: 0 <= i < n ==> r[i] == ' '
  {
    if n == 0 then [] else [' '] + Spaces(n - 1)
  }

  /** Leading whitespace is exactly what `trim_start` removes. */
  lemma {:induction false} TrimStartAfterWhitespace(ws: string, s: string)
    requires AllWhitespace(ws) && (|s| == 0 || !IsWhitespace(s[0]))
    ensures TrimStart(ws + s) == s
    decreases |ws|
  {
    if |ws| > 0 {
      assert (ws + s)[1..] == ws[1..] + s;
      TrimStartAfterWhitespace(ws[1..], s);
    } else {
      assert ws + s == s;
    }
  }

  /** Trimming a padded number gives the number back, so it parses again. */
  lemma TrimPadLeft(n: nat, w: nat)
    ensures Trim(PadLeft(Decimal(n), w)) == Decimal(n)
  {
    var d := Decimal(n);
    var r := PadLeft(d, w);
    assert r[|r| - 1] == d[|d| - 1];
    assert IsDigit(d[|d| - 1]);
    assert TrimEnd(r) == r;
    if |d| < w {
      var sp := Spaces(w - |d|);
      assert r == sp + d;
      TrimStartAfterWhitespace(sp, d);
    } else {
      assert !IsWhitespace(d[0]);
    }
  }

  lemma {:induction false} TokenOf(t: string, rest: string)
    requires NoWhitespace(t) && (|rest| == 0 || IsWhitespace(rest[0]))
    ensures Token(t + rest) == t
    decreases |t|
  {
    if |t| > 0 {
      assert (t + rest)[1..] == t[1..] + rest;
      TokenOf(t[1..], rest);
    } else {
      assert t + rest == rest;
    }
  }

  /** Two tokens joined by a space split back into the two. */
  lemma SplitTwo(a: string, b: string)
    requires |a| > 0 && NoWhitespace(a) && |b| > 0 && NoWhitespace(b)
    ensures SplitWhitespace(a + " " + b) == [a, b]
  {
    TwoSeparated(a, b);
    SplitSeparated(["", " ", ""], [a, b], a + " " + b);
  }

  lemma TwoSeparated(a: string, b: string)
    requires |a| > 0 && NoWhitespace(a) && |b| > 0 && NoWhitespace(b)
    ensures Separates(["", " ", ""], [a, b], a + " " + b)
  {
    var gaps: seq<string> := ["", " ", ""];
    var pieces := [a, b];
    assert Interleave(gaps[2..], pieces[2..]) == "";
    assert Interleave(gaps[1..], pieces[1..]) == " " + b + "" by {
      assert gaps[1..][1..] == gaps[2..] && pieces[1..][1..] == pieces[2..];
    }
    assert AllWhitespace(gaps[1]);
  }

  /** The first `n` elements of `s`, or all of them. */
  function Take<T>(s: seq<T>, n: nat): (r: seq<T>)
    ensures |r| <= n && |r| <= |s| && r == s[..|r|] && (|r| == |s| || |r| == n)
  {
    if |s| <= n then s else s[..n]
  }

  /** How many elements of `s` equal `x`. */
  function Count<T(==)>(s: seq<T>, x: T): nat
  {
    if |s| == 0 then 0 else (if s[0] == x then 1 else 0) + Count(s[1..], x)
  }

  /** Length of the first line of `s`, its terminator `nl` included if there is one. */
  function FirstLineLength<T(==)>(s: seq<T>, nl: T): (n: nat)
    ensures n <= |s| && (|s| > 0 ==> n > 0)
    ensures forall i :: 0 <= i < n - 1 ==> s[i] != nl
    ensures n < |s| ==> s[n - 1] == nl
  {
    if |s| == 0 then 0 else if s[0] == nl then 1 else 1 + FirstLineLength(s[1..], nl)
  }

  /**
   * `lines().count()`: every terminator ends one line, and a non-empty tail
   * after the last terminator is one more line. (The `\r` that `lines` also
   * strips does not change the count.)
   */
  function LineCount<T(==)>(s: seq<T>, nl: T): nat
    decreases |s|
  {
    if |s| == 0 then 0 else 1 + LineCount(s[FirstLineLength(s, nl)..], nl)
  }

  /** The line count is the number of terminators, plus one for an unterminated last line. */
  lemma {:induction false} LineCountByTerminators<T>(s: seq<T>, nl: T)
    ensures LineCount(s, nl) == Count(s, nl) + (if |s| > 0 && s[|s| - 1] != nl then 1 else 0)
    decreases |s|
  {
    if |s| > 0 {
      var n := FirstLineLength(s, nl);
      LineCountByTerminators(s[n..], nl);
      assert s == s[..n] + s[n..];
      CountConcat(s[..n], s[n..], nl);
      CountFirstLine(s, nl);
    }
  }

  lemma {:induction false} CountFirstLine<T>(s: seq<T>, nl: T)
    requires |s| > 0
    ensures Count(s[..FirstLineLength(s, nl)], nl) == if s[FirstLineLength(s, nl) - 1] == nl then 1 else 0
    decreases |s|
  {
    var n := FirstLineLength(s, nl);
    if s[0] != nl && |s| > 1 {
      CountFirstLine(s[1..], nl);
      assert s[..n][1..] == s[1..][..n - 1];
    }
  }

  lemma {:induction false} CountConcat<T>(a: seq<T>, b: seq<T>, x: T)
    ensures Count(a + b, x) == Count(a, x) + Count(b, x)
    decreases |a|
  {
    if |a| > 0 {
      CountConcat(a[1..], b, x);
      assert (a + b)[1..] == a[1..] + b;
    } else {
      assert a + b == b;
    }
  }

  /** `haystack.contains(needle)`. */
  predicate Contains<T(==)>(haystack: seq<T>, needle: seq<T>)
    decreases |haystack|
  {
    |needle| <= |haystack| && (haystack[..|needle|] == needle || Contains(haystack[1..], needle))
  }

  /** `s.strip_suffix(c).unwrap_or(s)`: at most one trailing `c` is removed. */
  function StripSuffix<T(==)>(s: seq<T>, c: T): (r: seq<T>)
    ensures s == r + [c] || (s == r && (|s| == 0 || s[|s| - 1] != c))
  {
    if |s| > 0 && s[|s| - 1] == c then s[..|s| - 1] else s
  }

  /** `needle` occurs in `haystack` at offset `i`. */
  predicate OccursAt<T(==)>(haystack: seq<T>, needle: seq<T>, i: nat)
  {
    i + |needle| <= |haystack| && haystack[i..i + |needle|] == needle
  }

  /** `Contains` holds exactly when `needle` occurs at some offset of `haystack`. */
  lemma {:induction false} ContainsAt<T>(haystack: seq<T>, needle: seq<T>)
    ensures Contains(haystack, needle) <==> exists i: nat :: OccursAt(haystack, needle, i)
    decreases |haystack|
  {
    if |needle| <= |haystack| && haystack[..|needle|] == needle {
      assert OccursAt(haystack, needle, 0);
    } else if |needle| <= |haystack| {
      ContainsAt(haystack[1..], needle);
      if Contains(haystack[1..], needle) {
        var i: nat :| OccursAt(haystack[1..], needle, i);
        assert haystack[i + 1..i + 1 + |needle|] == haystack[1..][i..i + |needle|];
        assert OccursAt(haystack, needle, i + 1);
      }
      if i: nat :| OccursAt(haystack, needle, i) {
        assert i > 0;
        assert haystack[1..][i - 1..i - 1 + |needle|] == haystack[i..i + |needle|];
        assert OccursAt(haystack[1..], needle, i - 1);
      }
    }
  }

  /** A line whose text has no whitespace at either end trims to that text. */
  lemma TrimLine(s: string)
    requires |s| > 0 && !IsWhitespace(s[0]) && !IsWhitespace(s[|s| - 1])
    ensures Trim(s + "\n") == s
  {
    assert (s + "\n")[..|s|] == s;
    assert TrimEnd(s + "\n") == s;
  }
}
