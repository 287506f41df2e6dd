/**
 * The few pieces of Python's str behaviour the play search relies on:
 * str.split with a one-character separator, str.join, the whitespace
 * int() strips, and ASCII case folding with substring search (the
 * database's icontains).
 */
module Text {

  /** Number of occurrences of c in s. */
  function Count(s: string, c: char): nat {
    if s == [] then 0 else (if s[0] == c then 1 else 0) + Count(s[1..], c)
  }

  /**
   * s.split(sep): the pieces between separators, in order. There is always
   * one more piece than there are separators, so "" gives [""] and "1,"
   * gives ["1", ""].
   */
  function Split(s: string, sep: char): (pieces: seq<string>)
    ensures |pieces| == Count(s, sep) + 1
  {
    if s == [] then [""]
    else
      var rest := Split(s[1..], sep);
      if s[0] == sep then [""] + rest
      else [[s[0]] + rest[0]] + rest[1..]
  }

  /** No piece of a split holds the separator. */
  lemma {:induction false} SplitPiecesLackSeparator(s: string, sep: char)
    ensures forall i :: 0 <= i < |Split(s, sep)| ==> sep !in Split(s, sep)[i]
  {
    if s != [] {
      SplitPiecesLackSeparator(s[1..], sep);
      var rest := Split(s[1..], sep);
      if s[0] != sep {
        assert forall i :: 1 <= i < |Split(s, sep)| ==> Split(s, sep)[i] == rest[i];
      } else {
        assert forall i :: 1 <= i < |Split(s, sep)| ==> Split(s, sep)[i] == rest[i - 1];
      }
    }
  }

  /** sep.join(pieces). */
  function Join(pieces: seq<string>, sep: char): string {
    if pieces == [] then ""
    else if |pieces| == 1 then pieces[0]
    else pieces[0] + [sep] + Join(pieces[1..], sep)
  }

  /** Joining the pieces of a split gives back the original text. */
  lemma {:induction false} JoinSplit(s: string, sep: char)
    ensures Join(Split(s, sep), sep) == s
  {
    if s != [] {
      var rest := Split(s[1..], sep);
      JoinSplit(s[1..], sep);
      if s[0] == sep {
        assert Split(s, sep) == [""] + rest;
        assert s == [sep] + s[1..];
      } else {
        var pieces := Split(s, sep);
        assert pieces[0] == [s[0]] + rest[0] && pieces[1..] == rest[1..];
        if |rest| == 1 {
          assert s == [s[0]] + rest[0];
        } else {
          assert Join(rest, sep) == rest[0] + [sep] + Join(rest[1..], sep);
          assert s == [s[0]] + s[1..];
        }
      }
    }
  }

  /** One step of Split: how the first character extends the pieces of the rest. */
  lemma SplitCons(c: char, t: string, sep: char)
    ensures Split([c] + t, sep) ==
      if c == sep then [""] + Split(t, sep)
      else [[c] + Split(t, sep)[0]] + Split(t, sep)[1..]
  {
    assert ([c] + t)[0] == c && ([c] + t)[1..] == t;
  }

  /** Extending the first piece commutes with appending more pieces. */
  lemma ExtendFirstPiece(c: char, left: seq<string>, right: seq<string>)
    requires |left| > 0
    ensures [[c] + (left + right)[0]] + (left + right)[1..] == ([[c] + left[0]] + left[1..]) + right
  {
    assert (left + right)[1..] == left[1..] + right;
  }

  lemma SplitAroundAfterOther(c: char, x: string, sep: char, y: string)
    requires Split(x + [sep] + y, sep) == Split(x, sep) + Split(y, sep)
    requires c != sep
    ensures Split([c] + (x + [sep] + y), sep) == Split([c] + x, sep) + Split(y, sep)
  {
    SplitCons(c, x + [sep] + y, sep);
    SplitCons(c, x, sep);
    ExtendFirstPiece(c, Split(x, sep), Split(y, sep));
  }

  lemma SplitAroundAfterSeparator(x: string, sep: char, y: string)
    requires Split(x + [sep] + y, sep) == Split(x, sep) + Split(y, sep)
    ensures Split([sep] + (x + [sep] + y), sep) == Split([sep] + x, sep) + Split(y, sep)
  {
    SplitCons(sep, x + [sep] + y, sep);
    SplitCons(sep, x, sep);
    assert [""] + (Split(x, sep) + Split(y, sep)) == ([""] + Split(x, sep)) + Split(y, sep);
  }

  /** Splitting at a separator splits the two sides independently. */
  lemma {:induction false} SplitAround(x: string, sep: char, y: string)
    ensures Split(x + [sep] + y, sep) == Split(x, sep) + Split(y, sep)
  {
    if x == [] {
      assert x + [sep] + y == [sep] + y;
      SplitCons(sep, y, sep);
    } else {
      var c, x' := x[0], x[1..];
      assert x == [c] + x';
      SplitAround(x', sep, y);
      assert x + [sep] + y == [c] + (x' + [sep] + y);
      if c == sep {
        SplitAroundAfterSeparator(x', sep, y);
      } else {
        SplitAroundAfterOther(c, x', sep, y);
      }
    }
  }

  /** Text without the separator is a single piece. */
  lemma {:induction false} SplitWithoutSeparator(x: string, sep: char)
    requires sep !in x
    ensures Split(x, sep) == [x]
  {
    if x != [] {
      SplitWithoutSeparator(x[1..], sep);
      assert x == [x[0]] + x[1..];
    }
  }

  /** Splitting a join gives back the pieces, provided none holds the separator. */
  lemma {:induction false} SplitJoin(pieces: seq<string>, sep: char)
    requires |pieces| > 0
    requires forall i :: 0 <= i < |pieces| ==> sep !in pieces[i]
    ensures Split(Join(pieces, sep), sep) == pieces
  {
    SplitWithoutSeparator(pieces[0], sep);
    if |pieces| > 1 {
      SplitJoin(pieces[1..], sep);
      SplitAround(pieces[0], sep, Join(pieces[1..], sep));
      assert pieces == [pieces[0]] + pieces[1..];
    }
  }

  /**
   * The whitespace int() strips from both ends of its argument: the ASCII
   * characters \t \n \v \f \r and the space, and the non-ASCII characters
   * Unicode classes as whitespace. The ASCII separators U+001C..U+001F are
   * whitespace to str.isspace() but not to int().
   */
  predicate IsSpace(c: char) {
    || 9 <= c as int <= 13 || c as int == 32
    || c as int == 0x85 || c as int == 0xA0 || c as int == 0x1680
    || 0x2000 <= c as int <= 0x200A
    || c as int == 0x2028 || c as int == 0x2029 || c as int == 0x202F
    || c as int == 0x205F || c as int == 0x3000
  }

  predicate AllSpace(s: string) {
    forall i :: 0 <= i < |s| ==> IsSpace(s[i])
  }

  /** s without its leading whitespace. */
  function TrimStart(s: string): string
    decreases |s|
  {
    if s != [] && IsSpace(s[0]) then TrimStart(s[1..]) else s
  }

  /** s without its trailing whitespace. */
  function TrimEnd(s: string): string
    decreases |s|
  {
    if s != [] && IsSpace(s[|s| - 1]) then TrimEnd(s[..|s| - 1]) else s
  }

  /** s without the whitespace at either end. */
  function Strip(s: string): string {
    TrimEnd(TrimStart(s))
  }

  /** TrimStart removes a run of whitespace and stops at the first other character. */
  lemma {:induction false} TrimStartMeaning(s: string)
    ensures var t := TrimStart(s);
      && |t| <= |s| && t == s[|s| - |t|..]
      && AllSpace(s[..|s| - |t|])
      && (t != [] ==> !IsSpace(t[0]))
    decreases |s|
  {
    if s != [] && IsSpace(s[0]) {
      TrimStartMeaning(s[1..]);
      var t := TrimStart(s);
      assert forall i :: 1 <= i < |s| - |t| ==> s[i] == s[1..][..|s| - 1 - |t|][i - 1];
    }
  }

  /** TrimEnd removes a run of whitespace and stops at the last other character. */
  lemma {:induction false} TrimEndMeaning(s: string)
    ensures var t := TrimEnd(s);
      && |t| <= |s| && t == s[..|t|]
      && AllSpace(s[|t|..])
      && (t != [] ==> !IsSpace(t[|t| - 1]))
    decreases |s|
  {
    if s != [] && IsSpace(s[|s| - 1]) {
      TrimEndMeaning(s[..|s| - 1]);
      var t := TrimEnd(s);
      assert forall i :: |t| <= i < |s| - 1 ==> s[i] == s[..|s| - 1][|t|..][i - |t|];
    }
  }

  /**
   * Strip(s) is the middle of s: a slice with only whitespace before and
   * after it, that neither starts nor ends with whitespace.
   */
  lemma StripMeaning(s: string)
    ensures exists i, j ::
      0 <= i <= j <= |s| && Strip(s) == s[i..j] && AllSpace(s[..i]) && AllSpace(s[j..])
    ensures Strip(s) != [] ==> !IsSpace(Strip(s)[0]) && !IsSpace(Strip(s)[|Strip(s)| - 1])
  {
    var t := TrimStart(s);
    TrimStartMeaning(s);
    TrimEndMeaning(t);
    var u := TrimEnd(t);
    var i := |s| - |t|;
    var j := i + |u|;
    assert u == s[i..j];
    assert forall k :: j <= k < |s| ==> s[k] == t[|u|..][k - j];
  }

  /** ASCII case folding of one character. */
  function LowerChar(c: char): char {
    if 'A' <= c <= 'Z' then (c as int + 32) as char else c
  }

  /** ASCII lower-casing: capitals become small letters, every other character stays. */
  function Lower(s: string): (r: string)
    ensures |r| == |s|
    ensures forall i :: 0 <= i < |r| ==> !('A' <= r[i] <= 'Z')
    ensures forall i :: 0 <= i < |s| && 'A' <= s[i] <= 'Z' ==> r[i] as int == s[i] as int + 32
    ensures forall i :: 0 <= i < |s| && !('A' <= s[i] <= 'Z') ==> r[i] == s[i]
  {
    seq(|s|, i requires 0 <= i < |s| => LowerChar(s[i]))
  }

  /** Lower-casing twice is lower-casing once. */
  lemma LowerIdempotent(s: string)
    ensures Lower(Lower(s)) == Lower(s)
  {
    var r := Lower(s);
    assert forall i :: 0 <= i < |r| ==> Lower(r)[i] == r[i];
  }

  /** Lower-casing commutes with taking a slice. */
  lemma LowerSlice(s: string, i: int, j: int)
    requires 0 <= i <= j <= |s|
    ensures Lower(s[i..j]) == Lower(s)[i..j]
  {
    assert forall k :: 0 <= k < j - i ==> Lower(s[i..j])[k] == LowerChar(s[i + k]) == Lower(s)[i..j][k];
  }

  /** needle occurs in hay as a contiguous piece (Python's `needle in hay`). */
  predicate IsInfix(needle: string, hay: string)
    decreases |hay|
  {
    needle <= hay || (hay != [] && IsInfix(needle, hay[1..]))
  }

  /** An occurrence found by IsInfix sits at some position of hay. */
  lemma {:induction false} InfixHasPosition(needle: string, hay: string)
    requires IsInfix(needle, hay)
    ensures exists i, j :: 0 <= i <= j <= |hay| && j - i == |needle| && hay[i..j] == needle
    decreases |hay|
  {
    if needle <= hay {
      assert hay[0..|needle|] == needle;
    } else {
      InfixHasPosition(needle, hay[1..]);
      var i, j :| 0 <= i <= j <= |hay[1..]| && j - i == |needle| && hay[1..][i..j] == needle;
      assert hay[i + 1..j + 1] == needle;
    }
  }

  /** A slice of hay equal to needle is an occurrence IsInfix finds. */
  lemma {:induction false} PositionIsInfix(needle: string, hay: string, i: int, j: int)
    requires 0 <= i <= j <= |hay| && j - i == |needle| && hay[i..j] == needle
    ensures IsInfix(needle, hay)
    decreases i
  {
    if i > 0 {
      assert hay[1..][i - 1..j - 1] == needle;
      PositionIsInfix(needle, hay[1..], i - 1, j - 1);
    }
  }

  /** IsInfix agrees with its definition by position: some slice of hay is needle. */
  lemma InfixAt(needle: string, hay: string)
    ensures IsInfix(needle, hay) ==>
      exists i, j :: 0 <= i <= j <= |hay| && j - i == |needle| && hay[i..j] == needle
    ensures (exists i, j :: 0 <= i <= j <= |hay| && j - i == |needle| && hay[i..j] == needle) ==>
      IsInfix(needle, hay)
  {
    if IsInfix(needle, hay) {
      InfixHasPosition(needle, hay);
    }
    if exists i, j :: 0 <= i <= j <= |hay| && j - i == |needle| && hay[i..j] == needle {
      var i, j :| 0 <= i <= j <= |hay| && j - i == |needle| && hay[i..j] == needle;
      PositionIsInfix(needle, hay, i, j);
    }
  }

  /**
   * Django's icontains lookup, a case-insensitive SQL `LIKE '%needle%'`
   * with the needle escaped, under ASCII case folding: some slice of hay
   * equals needle once both are lower-cased.
   */
  function IContains(hay: string, needle: string): (b: bool)
    ensures b ==> exists i, j :: 0 <= i <= j <= |hay| && j - i == |needle| && Lower(hay[i..j]) == Lower(needle)
    ensures (exists i, j :: 0 <= i <= j <= |hay| && j - i == |needle| && Lower(hay[i..j]) == Lower(needle)) ==> b
  {
    InfixAt(Lower(needle), Lower(hay));
    assert forall i, j :: 0 <= i <= j <= |hay| ==> Lower(hay[i..j]) == Lower(hay)[i..j] by {
      forall i, j | 0 <= i <= j <= |hay| {
        LowerSlice(hay, i, j);
      }
    }
    IsInfix(Lower(needle), Lower(hay))
  }

  /** A needle that occurs verbatim also occurs ignoring case. */
  lemma {:induction false} InfixIContains(needle: string, hay: string)
    requires IsInfix(needle, hay)
    ensures IContains(hay, needle)
    decreases |hay|
  {
    if needle <= hay {
      assert Lower(needle) <= Lower(hay);
    } else {
      InfixIContains(needle, hay[1..]);
      assert Lower(hay)[1..] == Lower(hay[1..]);
    }
  }

  /** Case folding the title first does not change an icontains match. */
  lemma IContainsIgnoresCase(hay: string, needle: string)
    ensures IContains(Lower(hay), needle) == IContains(hay, needle)
    ensures IContains(hay, Lower(needle)) == IContains(hay, needle)
  {
    LowerIdempotent(hay);
    LowerIdempotent(needle);
  }
}
