/** Small value types shared by the whole model. */
module Wrappers {
  datatype Option<+T> = None | Some(value: T) {
    function GetOr(default: T): T {
      match this
      case Some(v) => v
      case None => default
    }
  }
}

/**
 * String helpers used by the server (Python `str.strip`, `str.lower`) and the
 * browser code (`String.prototype.trim`, `includes`, `replace`, `padStart`,
 * number-to-string conversion).
 */
module Text {

  /** Which runtime's definition of "white space" a trim uses. */
  datatype Runtime = Python | JavaScript

  /** The characters `str.strip()` (Python) and `String.prototype.trim()` (JavaScript) remove. */
  predicate IsSpace(rt: Runtime, c: char) {
    || ('\t' <= c <= '\r')   // \t \n \v \f \r in both runtimes
    || c == ' ' || c == '\U{A0}' || c == '\U{1680}' || ('\U{2000}' <= c <= '\U{200A}')
    || c == '\U{2028}' || c == '\U{2029}' || c == '\U{202F}' || c == '\U{205F}' || c == '\U{3000}'
    || (rt == Python && (('\U{1C}' <= c <= '\U{1F}') || c == '\U{85}'))
    || (rt == JavaScript && c == '\U{FEFF}')
  }

  predicate AllSpace(rt: Runtime, s: string) {
    forall i :: 0 <= i < |s| ==> IsSpace(rt, s[i])
  }

  /** Removes leading white space. */
  function TrimStart(rt: Runtime, s: string): string {
    if |s| > 0 && IsSpace(rt, s[0]) then TrimStart(rt, s[1..]) else s
  }

  /** Removes trailing white space. */
  function TrimEnd(rt: Runtime, s: string): string {
    if |s| > 0 && IsSpace(rt, s[|s| - 1]) then TrimEnd(rt, s[..|s| - 1]) else s
  }

  /** What `TrimStart` removes is a prefix of white space, and what it keeps does not start with white space. */
  lemma {:induction false} TrimStartShape(rt: Runtime, s: string)
    ensures var r := TrimStart(rt, s);
      && |r| <= |s| && r == s[|s| - |r|..]
      && AllSpace(rt, s[..|s| - |r|])
      && (r == [] || !IsSpace(rt, r[0]))
  {
    if |s| > 0 && IsSpace(rt, s[0]) {
      TrimStartShape(rt, s[1..]);
      var r := TrimStart(rt, s);
      assert s[..|s| - |r|] == [s[0]] + s[1..][..|s| - 1 - |r|];
    }
  }

  /** What `TrimEnd` removes is a suffix of white space, and what it keeps does not end with white space. */
  lemma {:induction false} TrimEndShape(rt: Runtime, s: string)
    ensures var r := TrimEnd(rt, s);
      && |r| <= |s| && r == s[..|r|]
      && AllSpace(rt, s[|r|..])
      && (r == [] || !IsSpace(rt, r[|r| - 1]))
  {
    if |s| > 0 && IsSpace(rt, s[|s| - 1]) {
      var n := |s| - 1;
      TrimEndShape(rt, s[..n]);
      var r := TrimEnd(rt, s);
      assert s[|r|..] == s[..n][|r|..] + [s[n]];
    }
  }

  /** `s.strip()` in Python, `s.trim()` in JavaScript. */
  function Trim(rt: Runtime, s: string): string {
    TrimEnd(rt, TrimStart(rt, s))
  }

  /** `c.lower()` restricted to ASCII letters. */
  function LowerChar(c: char): char {
    if 'A' <= c <= 'Z' then (c as int + 32) as char else c
  }

  function Lower(s: string): (r: string)
    ensures |r| == |s|
  {
    if |s| == 0 then [] else [LowerChar(s[0])] + Lower(s[1..])
  }

  /** `Lower` maps every character on its own. */
  lemma {:induction false} LowerAt(s: string)
    ensures forall i :: 0 <= i < |s| ==> Lower(s)[i] == LowerChar(s[i])
  {
    if s != [] {
      LowerAt(s[1..]);
    }
  }

  predicate StartsWith(s: string, prefix: string) {
    |prefix| <= |s| && s[..|prefix|] == prefix
  }

  /** `s.includes(sub)`. */
  predicate Contains(s: string, sub: string)
    decreases |s|
  {
    StartsWith(s, sub) || (|s| > 0 && Contains(s[1..], sub))
  }

  /** A string holds every text written inside it, wherever it stands. */
  lemma {:induction false} ContainsInside(a: string, sub: string, b: string)
    ensures Contains(a + sub + b, sub)
    decreases |a|
  {
    if a == [] {
      assert a + sub + b == sub + b;
      assert (sub + b)[..|sub|] == sub;
    } else {
      ContainsInside(a[1..], sub, b);
      assert (a + sub + b)[1..] == a[1..] + sub + b;
    }
  }

  /** A text longer than the string is not in it. */
  lemma {:induction false} ShorterContainsNothing(s: string, sub: string)
    requires |s| < |sub|
    ensures !Contains(s, sub)
    decreases |s|
  {
    if s != [] {
      ShorterContainsNothing(s[1..], sub);
    }
  }

  /** `s.replace(pattern, replacement)` with a string pattern: only the first occurrence is replaced. */
  function ReplaceFirst(s: string, pattern: string, replacement: string): string
    decreases |s|
  {
    if StartsWith(s, pattern) then replacement + s[|pattern|..]
    else if |s| == 0 then s
    else [s[0]] + ReplaceFirst(s[1..], pattern, replacement)
  }

  // ---------------------------------------------------------------------------------------
  // Decimal rendering of integers (Python `str(n)`, f-strings, JavaScript `n.toString()`).

  predicate IsDigit(c: char) { '0' <= c <= '9' }

  predicate AllDigits(s: string) { forall i :: 0 <= i < |s| ==> IsDigit(s[i]) }

  function DigitChar(d: nat): char
    requires d < 10
  {
    ('0' as int + d) as char
  }

  function NatToString(n: nat): (r: string)
    ensures |r| > 0 && AllDigits(r)
  {
    if n < 10 then [DigitChar(n)] else NatToString(n / 10) + [DigitChar(n % 10)]
  }

  function IntToString(i: int): string {
    if i < 0 then "-" + NatToString(-i) else NatToString(i)
  }

  /** Reads a string of decimal digits back as a number. */
  function ParseDigits(s: string): nat
    requires AllDigits(s)
  {
    if |s| == 0 then 0 else ParseDigits(s[..|s| - 1]) * 10 + (s[|s| - 1] as int - '0' as int)
  }

  lemma {:induction false} ParseNatToString(n: nat)
    ensures ParseDigits(NatToString(n)) == n
  {
    var r := NatToString(n);
    if n >= 10 {
      ParseNatToString(n / 10);
      assert r[..|r| - 1] == NatToString(n / 10);
    }
  }

  /** Different numbers are rendered differently. */
  lemma NatToStringInjective(m: nat, n: nat)
    requires NatToString(m) == NatToString(n)
    ensures m == n
  {
    ParseNatToString(m);
    ParseNatToString(n);
  }

  /** `s.padStart(2, '0')`. */
  function PadStart2(s: string): (r: string)
    ensures |s| >= 2 ==> r == s
    ensures |s| < 2 ==> |r| == 2 && r[2 - |s|..] == s && AllDigits(r[..2 - |s|])
  {
    if |s| >= 2 then s else if |s| == 1 then "0" + s else "00"
  }

  /** Hours, minutes and seconds of a number of seconds add back up to it. */
  lemma ClockArith(s: nat)
    ensures 3600 * (s / 3600) + 60 * ((s % 3600) / 60) + s % 60 == s
    ensures s < 3600 ==> 60 * ((s % 3600) / 60) + s % 60 == s
  {
    var h, rest := s / 3600, s % 3600;
    assert s == 3600 * h + rest;
    assert rest == 60 * (rest / 60) + rest % 60;
    assert s % 60 == rest % 60 by {
      assert s == 60 * (60 * h + rest / 60) + rest % 60;
    }
  }

  /** Numbers below 100 have at most two digits. */
  lemma SmallNatToString(n: nat)
    requires n < 100
    ensures |NatToString(n)| <= 2
  {
  }

  /** Zero padding does not change the value read back. */
  lemma ParsePadded(n: nat)
    requires n < 100
    ensures AllDigits(PadStart2(NatToString(n))) && ParseDigits(PadStart2(NatToString(n))) == n
  {
    ParseNatToString(n);
    SmallNatToString(n);
    var d := NatToString(n);
    if |d| == 1 {
      var p := PadStart2(d);
      assert p == ['0', d[0]];
      assert p[..1] == "0" && ParseDigits("0") == 0;
      assert d[..0] == [];
    }
  }

  /** The length of the longest run of digits at the start of `s`. */
  function DigitRun(s: string): (k: nat)
    ensures k <= |s| && AllDigits(s[..k]) && (k < |s| ==> !IsDigit(s[k]))
  {
    if |s| == 0 || !IsDigit(s[0]) then 0 else 1 + DigitRun(s[1..])
  }

  /** A digit string followed by a non-digit is exactly the leading run of digits. */
  lemma DigitRunAppend(a: string, b: string)
    requires AllDigits(a) && b != [] && !IsDigit(b[0])
    ensures DigitRun(a + b) == |a|
  {
    var k := DigitRun(a + b);
    assert (a + b)[..|a|] == a;
  }

  /** Digits before a separator are determined by the whole string. */
  lemma DigitsPrefixUnique(a: string, x: string, b: string, y: string)
    requires AllDigits(a) && AllDigits(b) && x != [] && y != [] && !IsDigit(x[0]) && !IsDigit(y[0])
    requires a + x == b + y
    ensures a == b && x == y
  {
    DigitRunAppend(a, x);
    DigitRunAppend(b, y);
    assert a == (a + x)[..|a|] && b == (b + y)[..|b|];
    assert x == (a + x)[|a|..] && y == (b + y)[|b|..];
  }

  // ---------------------------------------------------------------------------------------
  // Properties of trimming.

  lemma {:induction false} TrimStartSkipsSpace(rt: Runtime, w: string, s: string)
    requires AllSpace(rt, w)
    ensures TrimStart(rt, w + s) == TrimStart(rt, s)
  {
    if w != [] {
      assert (w + s)[1..] == w[1..] + s;
      TrimStartSkipsSpace(rt, w[1..], s);
    } else {
      assert w + s == s;
    }
  }

  lemma {:induction false} TrimEndSkipsSpace(rt: Runtime, s: string, w: string)
    requires AllSpace(rt, w)
    ensures TrimEnd(rt, s + w) == TrimEnd(rt, s)
  {
    if w != [] {
      assert (s + w)[..|s + w| - 1] == s + w[..|w| - 1];
      TrimEndSkipsSpace(rt, s, w[..|w| - 1]);
    } else {
      assert s + w == s;
    }
  }

  lemma {:induction false} TrimStartAppend(rt: Runtime, s: string, t: string)
    ensures TrimStart(rt, s + t) == if TrimStart(rt, s) == [] then TrimStart(rt, t) else TrimStart(rt, s) + t
  {
    if s == [] {
      assert s + t == t;
    } else if IsSpace(rt, s[0]) {
      assert (s + t)[1..] == s[1..] + t;
      TrimStartAppend(rt, s[1..], t);
    }
  }

  /** White space around a value does not change what trimming leaves. */
  lemma TrimIgnoresPadding(rt: Runtime, w1: string, s: string, w2: string)
    requires AllSpace(rt, w1) && AllSpace(rt, w2)
    ensures Trim(rt, w1 + s + w2) == Trim(rt, s)
  {
    assert w1 + s + w2 == w1 + (s + w2);
    TrimStartSkipsSpace(rt, w1, s + w2);
    TrimStartAppend(rt, s, w2);
    if TrimStart(rt, s) == [] {
      TrimStartSkipsSpace(rt, w2, []);
      assert w2 + [] == w2;
    } else {
      TrimEndSkipsSpace(rt, TrimStart(rt, s), w2);
    }
  }

  /** Trimming twice is trimming once. */
  lemma TrimIdempotent(rt: Runtime, s: string)
    ensures Trim(rt, Trim(rt, s)) == Trim(rt, s)
  {
    var t := Trim(rt, s);
    var a := TrimStart(rt, s);
    TrimStartShape(rt, s);
    TrimEndShape(rt, a);
    TrimEndShape(rt, t);
    if t != [] {
      assert t[0] == a[0];
    }
  }

  lemma {:induction false} TrimStartLower(rt: Runtime, s: string)
    ensures Lower(TrimStart(rt, s)) == TrimStart(rt, Lower(s))
  {
    if s != [] {
      assert IsSpace(rt, LowerChar(s[0])) == IsSpace(rt, s[0]);
      assert Lower(s)[1..] == Lower(s[1..]);
      TrimStartLower(rt, s[1..]);
    }
  }

  lemma {:induction false} TrimEndLower(rt: Runtime, s: string)
    ensures Lower(TrimEnd(rt, s)) == TrimEnd(rt, Lower(s))
  {
    if s != [] {
      var n := |s| - 1;
      assert IsSpace(rt, LowerChar(s[n])) == IsSpace(rt, s[n]);
      LowerAt(s);
      LowerAt(s[..n]);
      assert Lower(s)[..n] == Lower(s[..n]);
      TrimEndLower(rt, s[..n]);
    }
  }

  /** Lower-casing and trimming commute: lower-casing never creates or removes white space. */
  lemma TrimLowerCommute(rt: Runtime, s: string)
    ensures Lower(Trim(rt, s)) == Trim(rt, Lower(s))
  {
    TrimEndLower(rt, TrimStart(rt, s));
    TrimStartLower(rt, s);
  }
}
