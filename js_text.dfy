/** The JavaScript string built-ins the dashboard relies on: `trim`,
    `Number.prototype.toString` on whole numbers, `padStart(2, "0")`,
    `split` on a one-character separator and `parseInt` without a radix. */
module JsText {
  import opened Wrappers

  // ----- whitespace and trim -----

  /** The WhiteSpace and LineTerminator code points of ECMAScript, which both
      `trim` and `parseInt` skip. */
  predicate IsWhitespace(c: char)
  {
    || c == '\t' || c == '\n' || c == '\U{B}' || c == '\U{C}' || c == '\r' || c == ' '
    || c == '\U{A0}' || c == '\U{1680}' || ('\U{2000}' <= c <= '\U{200A}')
    || c == '\U{2028}' || c == '\U{2029}' || c == '\U{202F}' || c == '\U{205F}'
    || c == '\U{3000}' || c == '\U{FEFF}'
  }

  predicate AllWhitespace(s: string)
  {
    forall i :: 0 <= i < |s| ==> IsWhitespace(s[i])
  }

  /** Number of whitespace characters at the front of `s`. */
  function LeadingWhitespace(s: string): (k: nat)
    ensures k <= |s|
  {
    if s != [] && IsWhitespace(s[0]) then 1 + LeadingWhitespace(s[1..]) else 0
  }

  /** Number of whitespace characters at the back of `s`. */
  function TrailingWhitespace(s: string): (k: nat)
    ensures k <= |s|
  {
    if s != [] && IsWhitespace(s[|s| - 1]) then 1 + TrailingWhitespace(s[..|s| - 1]) else 0
  }

  /** The leading run is all whitespace and is followed by a character that
      is not. */
  lemma {:induction false} LeadingWhitespaceSpec(s: string)
    ensures forall i :: 0 <= i < LeadingWhitespace(s) ==> IsWhitespace(s[i])
    ensures LeadingWhitespace(s) < |s| ==> !IsWhitespace(s[LeadingWhitespace(s)])
  {
    if s != [] && IsWhitespace(s[0]) {
      LeadingWhitespaceSpec(s[1..]);
    }
  }

  /** The trailing run is all whitespace and is preceded by a character
      that is not. */
  lemma {:induction false} TrailingWhitespaceSpec(s: string)
    ensures forall i :: |s| - TrailingWhitespace(s) <= i < |s| ==> IsWhitespace(s[i])
    ensures TrailingWhitespace(s) < |s| ==> !IsWhitespace(s[|s| - TrailingWhitespace(s) - 1])
  {
    if s != [] && IsWhitespace(s[|s| - 1]) {
      TrailingWhitespaceSpec(s[..|s| - 1]);
    }
  }

  /** `trimStart`: drops the leading whitespace. */
  function TrimStart(s: string): string
  {
    s[LeadingWhitespace(s)..]
  }

  /** `trim`: the text between the leading and the trailing whitespace
      runs. It is empty exactly when `s` is all whitespace, and otherwise
      starts and ends with a character that is not whitespace. */
  function Trim(s: string): (r: string)
    ensures r == [] <==> AllWhitespace(s)
    ensures r != [] ==> !IsWhitespace(r[0]) && !IsWhitespace(r[|r| - 1])
    ensures |r| <= |s|
  {
    LeadingWhitespaceSpec(s);
    TrailingWhitespaceSpec(s);
    var a := LeadingWhitespace(s);
    if a == |s| then []
    else
      assert !IsWhitespace(s[a]);
      s[a..|s| - TrailingWhitespace(s)]
  }

  lemma AllWhitespaceConcat(a: string, b: string)
    requires AllWhitespace(a) && AllWhitespace(b)
    ensures AllWhitespace(a + b)
  {
    forall i | 0 <= i < |a + b|
      ensures IsWhitespace((a + b)[i])
    {
      if i >= |a| {
        assert (a + b)[i] == b[i - |a|];
      }
    }
  }

  lemma {:induction false} LeadingWhitespaceOf(ws: string, t: string)
    requires AllWhitespace(ws)
    requires t == [] || !IsWhitespace(t[0])
    ensures LeadingWhitespace(ws + t) == |ws|
  {
    if ws != [] {
      assert (ws + t)[0] == ws[0];
      assert (ws + t)[1..] == ws[1..] + t;
      LeadingWhitespaceOf(ws[1..], t);
    } else {
      assert ws + t == t;
    }
  }

  lemma {:induction false} TrailingWhitespaceOf(t: string, ws: string)
    requires AllWhitespace(ws)
    requires t == [] || !IsWhitespace(t[|t| - 1])
    ensures TrailingWhitespace(t + ws) == |ws|
  {
    if ws != [] {
      assert (t + ws)[|t + ws| - 1] == ws[|ws| - 1];
      assert (t + ws)[..|t + ws| - 1] == t + ws[..|ws| - 1];
      TrailingWhitespaceOf(t, ws[..|ws| - 1]);
    } else {
      assert t + ws == t;
    }
  }

  lemma TrimStartSkips(ws: string, t: string)
    requires AllWhitespace(ws)
    requires t == [] || !IsWhitespace(t[0])
    ensures TrimStart(ws + t) == t
  {
    LeadingWhitespaceOf(ws, t);
    assert (ws + t)[|ws|..] == t;
  }

  /** The converse of Trim's contract: padding a string that has no
      whitespace at its ends with whitespace on both sides is undone by trim. */
  lemma TrimPadded(lead: string, t: string, trail: string)
    requires AllWhitespace(lead) && AllWhitespace(trail)
    requires t != [] ==> !IsWhitespace(t[0]) && !IsWhitespace(t[|t| - 1])
    ensures Trim(lead + t + trail) == t
  {
    if t == [] {
      assert lead + t + trail == lead + trail;
      AllWhitespaceConcat(lead, trail);
    } else {
      var x := lead + t + trail;
      assert x == lead + (t + trail);
      LeadingWhitespaceOf(lead, t + trail);
      assert (lead + t)[|lead + t| - 1] == t[|t| - 1];
      TrailingWhitespaceOf(lead + t, trail);
      assert x[|lead|..|x| - |trail|] == t;
    }
  }

  /** A string with no whitespace at its ends is its own trim. */
  lemma TrimOfTrimmed(r: string)
    requires r != [] ==> !IsWhitespace(r[0]) && !IsWhitespace(r[|r| - 1])
    ensures Trim(r) == r
  {
    assert [] + r + [] == r;
    TrimPadded([], r, []);
  }

  /** Trimming twice is trimming once. */
  lemma TrimIdempotent(s: string)
    ensures Trim(Trim(s)) == Trim(s)
  {
    TrimOfTrimmed(Trim(s));
  }

  // ----- digits -----

  /** The value of `c` as a digit: 0-9, then a-z and A-Z as 10 to 35; 36 for
      any other character, which is a digit in no radix `parseInt` uses. */
  function DigitValue(c: char): nat
  {
    if '0' <= c <= '9' then c as int - '0' as int
    else if 'a' <= c <= 'z' then c as int - 'a' as int + 10
    else if 'A' <= c <= 'Z' then c as int - 'A' as int + 10
    else 36
  }

  predicate IsDigit(c: char, radix: nat)
  {
    DigitValue(c) < radix
  }

  /** Positional value of a digit string, most significant digit first. */
  function DigitsValue(ds: string, radix: nat): nat
  {
    if ds == [] then 0 else DigitsValue(ds[..|ds| - 1], radix) * radix + DigitValue(ds[|ds| - 1])
  }

  /** Length of the longest prefix of `s` made of `radix` digits. */
  function DigitPrefixLength(s: string, radix: nat): (k: nat)
    ensures k <= |s|
  {
    if s != [] && IsDigit(s[0], radix) then 1 + DigitPrefixLength(s[1..], radix) else 0
  }

  lemma {:induction false} DigitPrefixOfDigits(ds: string, rest: string, radix: nat)
    requires forall i :: 0 <= i < |ds| ==> IsDigit(ds[i], radix)
    requires rest == [] || !IsDigit(rest[0], radix)
    ensures DigitPrefixLength(ds + rest, radix) == |ds|
  {
    if ds != [] {
      assert (ds + rest)[1..] == ds[1..] + rest;
      DigitPrefixOfDigits(ds[1..], rest, radix);
    } else {
      assert ds + rest == rest;
    }
  }

  lemma {:induction false} ZerosValue(z: string, radix: nat)
    requires forall i :: 0 <= i < |z| ==> z[i] == '0'
    ensures DigitsValue(z, radix) == 0
  {
    if z != [] {
      ZerosValue(z[..|z| - 1], radix);
    }
  }

  /** Leading zeros do not change a digit string's value. */
  lemma {:induction false} LeadingZerosValue(z: string, ds: string, radix: nat)
    requires forall i :: 0 <= i < |z| ==> z[i] == '0'
    ensures DigitsValue(z + ds, radix) == DigitsValue(ds, radix)
  {
    if ds == [] {
      assert z + ds == z;
      ZerosValue(z, radix);
    } else {
      var init := ds[..|ds| - 1];
      assert (z + ds)[..|z + ds| - 1] == z + init;
      LeadingZerosValue(z, init, radix);
    }
  }

  function DigitChar(d: nat): (c: char)
    requires d < 10
    ensures IsDigit(c, 10) && DigitValue(c) == d
  {
    ('0' as int + d) as char
  }

  /** `n.toString()` for a whole number `n >= 0`: its decimal digits. */
  function NatToString(n: nat): (r: string)
    ensures r != []
  {
    if n < 10 then [DigitChar(n)] else NatToString(n / 10) + [DigitChar(n % 10)]
  }

  /** `n.toString()` is a string of decimal digits with no leading zero,
      whose value is `n`. */
  lemma {:induction false} NatToStringSpec(n: nat)
    ensures forall i :: 0 <= i < |NatToString(n)| ==> IsDigit(NatToString(n)[i], 10)
    ensures |NatToString(n)| > 1 ==> NatToString(n)[0] != '0'
    ensures DigitsValue(NatToString(n), 10) == n
  {
    if n >= 10 {
      NatToStringSpec(n / 10);
      var p := NatToString(n / 10);
      var r := p + [DigitChar(n % 10)];
      assert r[..|r| - 1] == p;
      assert r[0] == p[0];
      forall i | 0 <= i < |r| ensures IsDigit(r[i], 10) {
        if i < |p| {
          assert r[i] == p[i];
        }
      }
    }
  }

  /** One digit for a value below ten, two below a hundred. */
  lemma NatToStringLength(n: nat)
    ensures |NatToString(n)| == 1 <==> n < 10
    ensures n < 100 ==> |NatToString(n)| <= 2
  {
    if n >= 10 {
      assert |NatToString(n)| == |NatToString(n / 10)| + 1;
    }
  }

  /** A character that is not a decimal digit does not occur in `n.toString()`. */
  lemma NatToStringAvoids(n: nat, c: char)
    requires !IsDigit(c, 10)
    ensures c !in NatToString(n)
  {
    var r := NatToString(n);
    NatToStringSpec(n);
    forall i | 0 <= i < |r| ensures r[i] != c {
      assert IsDigit(r[i], 10);
    }
  }

  /** The longest digit prefix is made of digits, and the character after
      it, if any, is not one. */
  lemma {:induction false} DigitPrefixDigits(s: string, radix: nat)
    ensures forall i :: 0 <= i < DigitPrefixLength(s, radix) ==> IsDigit(s[i], radix)
    ensures DigitPrefixLength(s, radix) < |s| ==> !IsDigit(s[DigitPrefixLength(s, radix)], radix)
  {
    if s != [] && IsDigit(s[0], radix) {
      DigitPrefixDigits(s[1..], radix);
      forall i | 0 < i < DigitPrefixLength(s, radix) ensures IsDigit(s[i], radix) {
        assert s[i] == s[1..][i - 1];
      }
    }
  }

  /** A digit string that does not start with `0` has a positive value. */
  lemma {:induction false} LeadingDigitPositive(ds: string)
    requires ds != [] && ds[0] != '0'
    requires forall i :: 0 <= i < |ds| ==> IsDigit(ds[i], 10)
    ensures DigitsValue(ds, 10) > 0
  {
    var init := ds[..|ds| - 1];
    if init == [] {
      assert ds[|ds| - 1] == ds[0];
    } else {
      assert init[0] == ds[0];
      LeadingDigitPositive(init);
    }
  }

  /** `toString` is the only way to spell a number in decimal digits
      without a leading zero. */
  lemma {:induction false} NatToStringCanonical(ds: string)
    requires ds != [] && (|ds| > 1 ==> ds[0] != '0')
    requires forall i :: 0 <= i < |ds| ==> IsDigit(ds[i], 10)
    ensures NatToString(DigitsValue(ds, 10)) == ds
  {
    var init := ds[..|ds| - 1];
    var last := ds[|ds| - 1];
    assert DigitChar(DigitValue(last)) == last;
    if init == [] {
      assert ds == [last];
    } else {
      assert init[0] == ds[0];
      LeadingDigitPositive(init);
      NatToStringCanonical(init);
      var v := DigitsValue(ds, 10);
      assert v == DigitsValue(init, 10) * 10 + DigitValue(last);
      assert v / 10 == DigitsValue(init, 10) && v % 10 == DigitValue(last);
      assert ds == init + [last];
    }
  }

  /** `padStart(2, "0")`: zeros in front up to length two. */
  function PadStart2(s: string): (r: string)
    ensures |r| == if |s| < 2 then 2 else |s|
    ensures r[|r| - |s|..] == s
    ensures forall i :: 0 <= i < |r| - |s| ==> r[i] == '0'
  {
    if |s| >= 2 then s else if |s| == 1 then ['0'] + s else "00"
  }

  /** Zero-padding a digit string keeps its value. */
  lemma PadStart2Value(ds: string)
    ensures DigitsValue(PadStart2(ds), 10) == DigitsValue(ds, 10)
  {
    var r := PadStart2(ds);
    var z := r[..|r| - |ds|];
    assert r == z + ds;
    LeadingZerosValue(z, ds, 10);
  }

  /** Zero-padding a digit string keeps it a digit string. */
  lemma PadStart2Digits(ds: string)
    requires forall i :: 0 <= i < |ds| ==> IsDigit(ds[i], 10)
    ensures forall i :: 0 <= i < |PadStart2(ds)| ==> IsDigit(PadStart2(ds)[i], 10)
  {
    var r := PadStart2(ds);
    var z := |r| - |ds|;
    forall i | 0 <= i < |r| ensures IsDigit(r[i], 10) {
      if i >= z {
        assert r[i] == r[z..][i - z];
      }
    }
  }

  // ----- split and join -----

  /** `s.split(sep)` for a one-character separator: the pieces between the
      separators, in order; the empty string gives one empty piece. */
  function Split(s: string, sep: char): (parts: seq<string>)
    ensures |parts| >= 1
    ensures forall i :: 0 <= i < |parts| ==> sep !in parts[i]
  {
    if s == [] then [""]
    else
      var rest := Split(s[1..], sep);
      if s[0] == sep then [""] + rest else [[s[0]] + rest[0]] + rest[1..]
  }

  /** `parts.join(sep)`. */
  function Join(parts: seq<string>, sep: char): string
  {
    if parts == [] then "" else if |parts| == 1 then parts[0] else parts[0] + [sep] + Join(parts[1..], sep)
  }

  /** Number of occurrences of `c` in `s`. */
  function Count(s: string, c: char): nat
  {
    if s == [] then 0 else (if s[0] == c then 1 else 0) + Count(s[1..], c)
  }

  /** Splitting yields one more piece than there are separators. */
  lemma {:induction false} SplitCount(s: string, sep: char)
    ensures |Split(s, sep)| == Count(s, sep) + 1
  {
    if s != [] {
      SplitCount(s[1..], sep);
    }
  }

  /** Joining the pieces with the separator gives back the string. */
  lemma {:induction false} JoinSplit(s: string, sep: char)
    ensures Join(Split(s, sep), sep) == s
  {
    if s != [] {
      var rest := Split(s[1..], sep);
      JoinSplit(s[1..], sep);
      if s[0] == sep {
        assert Split(s, sep)[1..] == rest;
        if |rest| == 1 {
          assert Join(rest, sep) == rest[0];
        }
        assert s == [s[0]] + s[1..];
      } else {
        var parts := Split(s, sep);
        assert parts[0] == [s[0]] + rest[0];
        assert parts[1..] == rest[1..];
        if |rest| == 1 {
          assert s == [s[0]] + rest[0];
        } else {
          assert Join(rest, sep) == rest[0] + [sep] + Join(rest[1..], sep);
          assert s == [s[0]] + s[1..];
        }
      }
    }
  }

  lemma {:induction false} SplitNoSeparator(a: string, sep: char)
    requires sep !in a
    ensures Split(a, sep) == [a]
  {
    if a != [] {
      SplitNoSeparator(a[1..], sep);
      assert [a[0]] + a[1..] == a;
    }
  }

  lemma {:induction false} SplitAfterPiece(a: string, b: string, sep: char)
    requires sep !in a
    ensures Split(a + [sep] + b, sep) == [a] + Split(b, sep)
  {
    if a == [] {
      assert a + [sep] + b == [sep] + b;
      assert ([sep] + b)[1..] == b;
    } else {
      assert (a + [sep] + b)[1..] == a[1..] + [sep] + b;
      SplitAfterPiece(a[1..], b, sep);
      assert [a[0]] + a[1..] == a;
    }
  }

  /** Splitting a join of separator-free pieces gives back the pieces. */
  lemma {:induction false} SplitJoin(parts: seq<string>, sep: char)
    requires |parts| >= 1
    requires forall i :: 0 <= i < |parts| ==> sep !in parts[i]
    ensures Split(Join(parts, sep), sep) == parts
  {
    if |parts| == 1 {
      SplitNoSeparator(parts[0], sep);
    } else {
      SplitJoin(parts[1..], sep);
      SplitAfterPiece(parts[0], Join(parts[1..], sep), sep);
      assert [parts[0]] + parts[1..] == parts;
    }
  }

  lemma {:induction false} CountAppend(s: string, c: char, d: char)
    ensures Count(s + [d], c) == Count(s, c) + (if d == c then 1 else 0)
  {
    if s == [] {
      assert [] + [d] == [d];
    } else {
      assert (s + [d])[1..] == s[1..] + [d];
      CountAppend(s[1..], c, d);
    }
  }

  // ----- parseInt -----

  /** `parseInt(s)` with no radix: skip leading whitespace, then read what
      ParseSigned reads. `None` stands for `NaN`. */
  function ParseInt(s: string): Option<int>
  {
    ParseSigned(TrimStart(s))
  }

  /** An optional sign, then the magnitude as ParseMagnitude reads it. */
  function ParseSigned(t: string): Option<int>
  {
    if t != [] && (t[0] == '-' || t[0] == '+') then
      match ParseMagnitude(t[1..])
      case None => None
      case Some(m) => Some(if t[0] == '-' then -(m as int) else m as int)
    else
      match ParseMagnitude(t)
      case None => None
      case Some(m) => Some(m as int)
  }

  /** The magnitude part of `parseInt`: base 16 after a `0x` / `0X` prefix,
      base 10 otherwise, and the longest run of digits that follows; `None`
      when that run is empty. */
  function ParseMagnitude(u: string): Option<nat>
  {
    var hex := |u| >= 2 && u[0] == '0' && (u[1] == 'x' || u[1] == 'X');
    var radix := if hex then 16 else 10;
    var v := if hex then u[2..] else u;
    var k := DigitPrefixLength(v, radix);
    if k == 0 then None else Some(DigitsValue(v[..k], radix))
  }

  /** Blank input parses to `NaN`. */
  lemma ParseIntBlank(s: string)
    requires AllWhitespace(s)
    ensures ParseInt(s) == None
  {
    LeadingWhitespaceSpec(s);
  }

  /** `rest` does not continue the numeral of `n`: it starts with no digit,
      and not with the `x` that turns a lone `0` into a `0x` prefix. */
  predicate StopsDecimal(n: nat, rest: string)
  {
    rest == [] || (!IsDigit(rest[0], 10) && (n == 0 ==> rest[0] != 'x' && rest[0] != 'X'))
  }

  lemma ParseMagnitudeOfDecimal(n: nat, rest: string)
    requires StopsDecimal(n, rest)
    ensures ParseMagnitude(NatToString(n) + rest) == Some(n)
  {
    var ds := NatToString(n);
    var u := ds + rest;
    NatToStringSpec(n);
    assert !(|u| >= 2 && u[0] == '0' && (u[1] == 'x' || u[1] == 'X')) by {
      if |u| >= 2 {
        if |ds| == 1 {
          assert u[1] == rest[0];
          if ds[0] == '0' {
            assert DigitsValue(ds, 10) == 0;
          }
        } else {
          assert u[0] == ds[0];
        }
      }
    }
    DigitPrefixOfDigits(ds, rest, 10);
    assert u[..|ds|] == ds;
  }

  lemma ParseSignedUnsigned(u: string, n: nat)
    requires ParseMagnitude(u) == Some(n)
    requires u != [] && u[0] != '-' && u[0] != '+'
    ensures ParseSigned(u) == Some(n)
  {
  }

  lemma ParseSignedWithSign(c: char, u: string, n: nat)
    requires ParseMagnitude(u) == Some(n)
    requires c == '-' || c == '+'
    ensures ParseSigned([c] + u) == Some(if c == '-' then -(n as int) else n as int)
  {
    assert ([c] + u)[1..] == u;
  }

  lemma ParseSignedOfDecimal(n: nat, rest: string)
    requires StopsDecimal(n, rest)
    ensures ParseSigned(NatToString(n) + rest) == Some(n as int)
  {
    var ds := NatToString(n);
    var u := ds + rest;
    ParseMagnitudeOfDecimal(n, rest);
    assert u[0] == ds[0];
    ParseSignedUnsigned(u, n);
  }

  lemma ParseSignedOfSignedDecimal(c: char, n: nat, rest: string)
    requires c == '-' || c == '+'
    requires StopsDecimal(n, rest)
    ensures ParseSigned([c] + NatToString(n) + rest) == Some(if c == '-' then -(n as int) else n as int)
  {
    var u := NatToString(n) + rest;
    ParseMagnitudeOfDecimal(n, rest);
    assert [c] + NatToString(n) + rest == [c] + u;
    ParseSignedWithSign(c, u, n);
  }

  /** `parseInt` reads back what `toString` wrote, after any leading
      whitespace and before any text that does not continue the number (a
      fractional part such as ".5", for one). */
  lemma ParseIntOfDecimal(ws: string, n: nat, rest: string)
    requires AllWhitespace(ws)
    requires StopsDecimal(n, rest)
    ensures ParseInt(ws + NatToString(n) + rest) == Some(n as int)
  {
    var t := NatToString(n) + rest;
    assert ws + NatToString(n) + rest == ws + t;
    NatToStringSpec(n);
    assert t[0] == NatToString(n)[0];
    TrimStartSkips(ws, t);
    ParseSignedOfDecimal(n, rest);
  }

  /** The same with a sign in front of the digits: a minus sign negates. */
  lemma ParseIntOfSignedDecimal(ws: string, c: char, n: nat, rest: string)
    requires AllWhitespace(ws)
    requires c == '-' || c == '+'
    requires StopsDecimal(n, rest)
    ensures ParseInt(ws + [c] + NatToString(n) + rest) == Some(if c == '-' then -(n as int) else n as int)
  {
    var t := [c] + NatToString(n) + rest;
    assert ws + [c] + NatToString(n) + rest == ws + t;
    TrimStartSkips(ws, t);
    ParseSignedOfSignedDecimal(c, n, rest);
  }
}
