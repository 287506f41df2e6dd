/**
 * Python's int(text) for base-10 text, and str(n), its inverse on integers.
 *
 * int() strips whitespace from both ends, then accepts one optional sign
 * and a run of decimal digits in which single underscores may separate two
 * digits (PEP 515); leading zeros are allowed. Anything else raises
 * ValueError, modelled here as None.
 */
module PyInt {
  import opened Wrappers
  import opened Text

  predicate IsDigit(c: char) {
    '0' <= c <= '9'
  }

  predicate AllDigits(s: string) {
    forall i :: 0 <= i < |s| ==> IsDigit(s[i])
  }

  function DigitValue(c: char): nat
    requires IsDigit(c)
  {
    c as int - '0' as int
  }

  function DigitChar(d: nat): (c: char)
    requires d < 10
    ensures IsDigit(c) && DigitValue(c) == d
  {
    ('0' as int + d) as char
  }

  /** The number a string of decimal digits denotes, most significant digit first. */
  function DigitsValue(ds: string): nat
    requires AllDigits(ds)
  {
    if ds == [] then 0 else DigitsValue(ds[..|ds| - 1]) * 10 + DigitValue(ds[|ds| - 1])
  }

  /** str(n) for n >= 0: the decimal digits of n, without leading zeros. */
  function NatToDigits(n: nat): (ds: string)
    ensures ds != [] && AllDigits(ds)
    ensures DigitsValue(ds) == n
    ensures ds[0] == '0' ==> ds == "0"
  {
    if n < 10 then [DigitChar(n)]
    else
      var front := NatToDigits(n / 10);
      assert (front + [DigitChar(n % 10)])[..|front|] == front;
      front + [DigitChar(n % 10)]
  }

  /** str(n): a minus sign for negative numbers, then the digits of |n|. */
  function Render(n: int): (s: string)
    ensures s != [] && !IsSpace(s[0]) && !IsSpace(s[|s| - 1])
    ensures ',' !in s
  {
    if n < 0 then "-" + NatToDigits(-n) else NatToDigits(n)
  }

  /**
   * The value of a run of decimal digits in which single underscores may
   * stand between two digits, read back from its last digit; None when the
   * text is not such a run. A run is a digit, or a run followed by a digit
   * or by "_" and a digit; a run never ends in "_", so the two cases below
   * do not overlap.
   */
  function RunValue(b: string): Option<nat>
    decreases |b|
  {
    if b == [] || !IsDigit(b[|b| - 1]) then None
    else
      var front, d := b[..|b| - 1], DigitValue(b[|b| - 1]);
      if front == [] then Some(d)
      else if front[|front| - 1] == '_' then
        match RunValue(front[..|front| - 1])
        case Some(v) => Some(v * 10 + d)
        case None => None
      else
        match RunValue(front)
        case Some(v) => Some(v * 10 + d)
        case None => None
  }

  /** Splits off one leading sign: whether the number is negative, and the rest. */
  function SplitSign(t: string): (bool, string) {
    if t != [] && (t[0] == '-' || t[0] == '+') then (t[0] == '-', t[1..]) else (false, t)
  }

  /** The number a literal without surrounding whitespace denotes: a sign, then a digit run. */
  function ParseSigned(t: string): Option<int> {
    var (negative, body) := SplitSign(t);
    match RunValue(body)
    case Some(v) => Some(if negative then -(v as int) else v as int)
    case None => None
  }

  /** Strips whitespace from both ends, one character at a time, then reads what is left. */
  function StripThenParse(s: string): Option<int>
    decreases |s|
  {
    if s != [] && IsSpace(s[0]) then StripThenParse(s[1..])
    else if s != [] && IsSpace(s[|s| - 1]) then StripThenParse(s[..|s| - 1])
    else ParseSigned(s)
  }

  /** Stripping one character at a time reads the same text as stripping both ends at once. */
  lemma {:induction false} StripThenParseStrips(s: string)
    ensures StripThenParse(s) == ParseSigned(Strip(s))
    decreases |s|
  {
    if s != [] && IsSpace(s[0]) {
      StripThenParseStrips(s[1..]);
      assert TrimStart(s) == TrimStart(s[1..]);
    } else if s != [] && IsSpace(s[|s| - 1]) {
      var s' := s[..|s| - 1];
      StripThenParseStrips(s');
      assert s'[0] == s[0];
      assert TrimStart(s') == s' && TrimStart(s) == s;
    } else {
      assert TrimStart(s) == s;
    }
  }

  /**
   * int(s) with base 10: Some(value), or None where Python raises ValueError.
   * It reads the text left once the whitespace at both ends is stripped.
   */
  function ParseInt(s: string): (r: Option<int>)
    ensures r == ParseSigned(Strip(s))
  {
    StripThenParseStrips(s);
    StripThenParse(s)
  }

  /** Text that neither starts nor ends with whitespace is read as it stands. */
  lemma ParseUnspaced(t: string)
    requires t != [] && !IsSpace(t[0]) && !IsSpace(t[|t| - 1])
    ensures ParseInt(t) == ParseSigned(t)
  {
  }

  /** Leading whitespace is ignored. */
  lemma {:induction false} ParseLeadingSpace(w: string, u: string)
    requires AllSpace(w) && u != [] && !IsSpace(u[0])
    ensures ParseInt(w + u) == ParseInt(u)
    decreases |w|
  {
    if w != [] {
      assert (w + u)[0] == w[0] && (w + u)[1..] == w[1..] + u;
      assert StripThenParse(w + u) == StripThenParse(w[1..] + u);
      ParseLeadingSpace(w[1..], u);
    } else {
      assert w + u == u;
    }
  }

  /** Trailing whitespace is ignored. */
  lemma {:induction false} ParseTrailingSpace(t: string, w: string)
    requires AllSpace(w) && t != [] && !IsSpace(t[0]) && !IsSpace(t[|t| - 1])
    ensures ParseInt(t + w) == ParseInt(t)
    decreases |w|
  {
    if w != [] {
      var w' := w[..|w| - 1];
      assert (t + w)[0] == t[0] && (t + w)[|t + w| - 1] == w[|w| - 1];
      assert (t + w)[..|t + w| - 1] == t + w';
      assert StripThenParse(t + w) == StripThenParse(t + w');
      ParseTrailingSpace(t, w');
    } else {
      assert t + w == t;
    }
  }

  /** Empty or blank text is not a number: int("") and int("  ") raise. */
  lemma {:induction false} ParseBlank(w: string)
    requires AllSpace(w)
    ensures ParseInt(w) == None
    decreases |w|
  {
    if w != [] {
      assert StripThenParse(w) == StripThenParse(w[1..]);
      ParseBlank(w[1..]);
    } else {
      assert RunValue(w) == None;
    }
  }

  /** A plain run of digits is read as the number it denotes. */
  lemma {:induction false} DigitsRunValue(ds: string)
    requires ds != [] && AllDigits(ds)
    ensures RunValue(ds) == Some(DigitsValue(ds))
    decreases |ds|
  {
    if |ds| > 1 {
      DigitsRunValue(ds[..|ds| - 1]);
    }
  }

  /** A plain digit string, with or without a minus sign, reads as its value. */
  lemma ParseSignedDigits(ds: string)
    requires ds != [] && AllDigits(ds)
    ensures ParseSigned(ds) == Some(DigitsValue(ds) as int)
    ensures ParseSigned("-" + ds) == Some(-(DigitsValue(ds) as int))
  {
    DigitsRunValue(ds);
    assert SplitSign(ds) == (false, ds);
    assert ("-" + ds)[1..] == ds;
    assert SplitSign("-" + ds) == (true, ds);
  }

  /** int(str(n)) == n for every integer n. */
  lemma ParseRender(n: int)
    ensures ParseInt(Render(n)) == Some(n)
  {
    ParseUnspaced(Render(n));
    ParseSignedDigits(NatToDigits(if n < 0 then -n else n));
  }

  /** int() ignores whitespace around the number: int(" 5 ") == 5. */
  lemma ParseRenderSpaced(w1: string, n: int, w2: string)
    requires AllSpace(w1) && AllSpace(w2)
    ensures ParseInt(w1 + Render(n) + w2) == Some(n)
  {
    var t := Render(n);
    var u := t + w2;
    assert ParseInt(u) == Some(n) by {
      ParseTrailingSpace(t, w2);
      ParseRender(n);
    }
    assert ParseInt(w1 + u) == ParseInt(u) by {
      assert u[0] == t[0];
      ParseLeadingSpace(w1, u);
    }
    assert w1 + t + w2 == w1 + u;
  }

  /** A digit run starts with a digit. */
  lemma {:induction false} RunStart(b: string)
    requires RunValue(b).Some?
    ensures IsDigit(b[0])
    decreases |b|
  {
    var front := b[..|b| - 1];
    if front != [] {
      if front[|front| - 1] == '_' {
        RunStart(front[..|front| - 1]);
      } else {
        RunStart(front);
      }
    }
  }

  /** Two digit groups joined by one underscore are worth the digits without it. */
  lemma {:induction false} GroupedRunValue(a: string, b: string)
    requires a != [] && AllDigits(a) && b != [] && AllDigits(b)
    ensures RunValue(a + "_" + b) == Some(DigitsValue(a + b))
    decreases |b|
  {
    var g, ds := a + "_" + b, a + b;
    if |b| == 1 {
      assert g[..|g| - 1] == a + "_";
      assert (a + "_")[..|a|] == a;
      assert ds[..|ds| - 1] == a;
      DigitsRunValue(a);
    } else {
      var b' := b[..|b| - 1];
      GroupedRunValue(a, b');
      assert g[..|g| - 1] == a + "_" + b';
      assert ds[..|ds| - 1] == a + b';
    }
  }

  /** Two underscores in a row break a digit run. */
  lemma {:induction false} DoubledUnderscoreBreaksRun(a: string, b: string)
    requires AllDigits(b)
    ensures RunValue(a + "__" + b) == None
    decreases |b|
  {
    var g := a + "__" + b;
    if b == [] {
      assert g[|g| - 1] == '_';
    } else {
      var b' := b[..|b| - 1];
      assert g[..|g| - 1] == a + "__" + b';
      if b' == [] {
        assert (a + "__")[..|a| + 1] == a + "_";
      } else {
        DoubledUnderscoreBreaksRun(a, b');
        assert (a + "__" + b')[|a + "__" + b'| - 1] == b'[|b'| - 1];
      }
    }
  }

  /** A single underscore between two digit groups is ignored: int("1_000") == int("1000"). */
  lemma ParseGroupedDigits(a: string, b: string)
    requires a != [] && AllDigits(a) && b != [] && AllDigits(b)
    ensures ParseInt(a + "_" + b) == ParseInt(a + b)
    ensures ParseInt(a + b) == Some(DigitsValue(a + b) as int)
  {
    var g, ds := a + "_" + b, a + b;
    assert AllDigits(ds) && ds[0] == a[0] && ds[|ds| - 1] == b[|b| - 1];
    assert ParseInt(ds) == Some(DigitsValue(ds) as int) by {
      ParseUnspaced(ds);
      ParseSignedDigits(ds);
    }
    assert ParseInt(g) == Some(DigitsValue(ds) as int) by {
      assert g[0] == a[0] && g[|g| - 1] == b[|b| - 1];
      GroupedRunValue(a, b);
      ParseUnspaced(g);
      assert SplitSign(g) == (false, g);
    }
  }

  /** A doubled underscore makes int() raise: int("1__0"). */
  lemma ParseDoubledUnderscore(a: string, b: string)
    requires a != [] && AllDigits(a) && b != [] && AllDigits(b)
    ensures ParseInt(a + "__" + b) == None
  {
    var g := a + "__" + b;
    assert g[0] == a[0] && g[|g| - 1] == b[|b| - 1];
    DoubledUnderscoreBreaksRun(a, b);
    ParseUnspaced(g);
    assert SplitSign(g) == (false, g);
  }

  /**
   * A number preceded by any character other than a digit, a sign or the
   * whitespace int() strips makes int() raise: int("_1"), and
   * int("\x1c2"), since the ASCII separator U+001C is not stripped.
   */
  lemma ParseLeadingStray(c: char, a: string)
    requires !IsDigit(c) && !IsSpace(c) && c != '-' && c != '+'
    requires a != [] && AllDigits(a)
    ensures ParseInt([c] + a) == None
  {
    var g := [c] + a;
    assert g[0] == c && g[|g| - 1] == a[|a| - 1];
    ParseUnspaced(g);
    assert SplitSign(g) == (false, g);
    if RunValue(g).Some? {
      RunStart(g);
    }
  }

  /** A trailing underscore makes int() raise: int("1_"). */
  lemma ParseTrailingUnderscore(a: string)
    requires a != [] && AllDigits(a)
    ensures ParseInt(a + "_") == None
  {
    var g := a + "_";
    assert g[0] == a[0] && g[|g| - 1] == '_';
    ParseUnspaced(g);
    assert SplitSign(g) == (false, g);
  }
}
