/** The JavaScript string primitives the habit form depends on:
    `String.prototype.trim`, `toLowerCase`, `includes`, and whether
    `parseFloat` reads a number (anything but NaN) from a text. */
module JsStrings {

  /** ECMAScript WhiteSpace and LineTerminator code points: the set that
      `trim` strips and that `parseFloat` skips at the start. */
  predicate IsWhitespace(c: char) {
    || c == '\t' || c == '\n' || c == '\U{000B}' || c == '\U{000C}' || c == '\r'
    || c == ' ' || c == '\U{00A0}' || c == '\U{1680}'
    || ('\U{2000}' <= c <= '\U{200A}')
    || c == '\U{2028}' || c == '\U{2029}' || c == '\U{202F}' || c == '\U{205F}'
    || c == '\U{3000}' || c == '\U{FEFF}'
  }

  predicate AllWhitespace(s: string) {
    forall i :: 0 <= i < |s| ==> IsWhitespace(s[i])
  }

  /** No whitespace at either end. */
  predicate IsTrimmed(s: string) {
    s == [] || (!IsWhitespace(s[0]) && !IsWhitespace(s[|s| - 1]))
  }

  /** Drops the leading whitespace: what remains does not start with whitespace. */
  function TrimStart(s: string): (r: string)
    ensures |r| <= |s|
    ensures r == [] || !IsWhitespace(r[0])
  {
    if |s| > 0 && IsWhitespace(s[0]) then TrimStart(s[1..]) else s
  }

  /** What `TrimStart` keeps is a suffix of `s`, and everything it dropped is whitespace. */
  lemma {:induction false} TrimStartDrops(s: string)
    ensures var r := TrimStart(s);
      r == s[|s| - |r|..] && AllWhitespace(s[..|s| - |r|])
  {
    if |s| > 0 && IsWhitespace(s[0]) {
      TrimStartDrops(s[1..]);
      var r := TrimStart(s);
      assert s[1..][..|s| - 1 - |r|] == s[1..|s| - |r|];
    }
  }

  /** Drops the trailing whitespace: what remains does not end with whitespace. */
  function TrimEnd(s: string): (r: string)
    ensures |r| <= |s|
    ensures r == [] || !IsWhitespace(r[|r| - 1])
  {
    if |s| > 0 && IsWhitespace(s[|s| - 1]) then TrimEnd(s[..|s| - 1]) else s
  }

  /** What `TrimEnd` keeps is a prefix of `s`, and everything it dropped is whitespace. */
  lemma {:induction false} TrimEndDrops(s: string)
    ensures var r := TrimEnd(s);
      r == s[..|r|] && AllWhitespace(s[|r|..])
  {
    if |s| > 0 && IsWhitespace(s[|s| - 1]) {
      TrimEndDrops(s[..|s| - 1]);
      var r := TrimEnd(s);
      assert s[..|s| - 1][|r|..] + [s[|s| - 1]] == s[|r|..];
    }
  }

  /** `String.prototype.trim`: no whitespace is left at either end. */
  function Trim(s: string): (r: string)
    ensures IsTrimmed(r) && |r| <= |s|
  {
    var t := TrimStart(s);
    var r := TrimEnd(t);
    if r != [] then
      TrimEndDrops(t);
      assert r[0] == t[0];
      r
    else r
  }

  /** `trim` yields the empty string exactly when the text is all whitespace. */
  lemma TrimBlankIff(s: string)
    ensures Trim(s) == [] <==> AllWhitespace(s)
  {
    var t := TrimStart(s);
    TrimStartDrops(s);
    TrimEndDrops(t);
    if Trim(s) == [] {
      assert s == s[..|s| - |t|] + t;
      AllWhitespaceAppend(s[..|s| - |t|], t);
    } else {
      assert s[|s| - |t|] == t[0];
    }
  }

  /** Whitespace followed by whitespace is whitespace. */
  lemma AllWhitespaceAppend(s: string, w: string)
    requires AllWhitespace(s) && AllWhitespace(w)
    ensures AllWhitespace(s + w)
  {
    forall i | 0 <= i < |s + w| ensures IsWhitespace((s + w)[i]) {
      if i >= |s| {
        assert (s + w)[i] == w[i - |s|];
      } else {
        assert (s + w)[i] == s[i];
      }
    }
  }

  /** A string with no whitespace at either end is left alone by `trim`. */
  lemma {:induction false} TrimOfTrimmed(s: string)
    requires IsTrimmed(s)
    ensures Trim(s) == s
  {
    if s != [] {
      assert TrimStart(s) == s;
      assert TrimEnd(s) == s;
    }
  }

  /** `trim` is idempotent. */
  lemma TrimIdempotent(s: string)
    ensures Trim(Trim(s)) == Trim(s)
  {
    TrimOfTrimmed(Trim(s));
  }

  /** Leading whitespace in front of a text is invisible to `TrimStart`. */
  lemma {:induction false} TrimStartPadded(w: string, s: string)
    requires AllWhitespace(w)
    ensures TrimStart(w + s) == TrimStart(s)
  {
    if w == [] {
      assert w + s == s;
    } else {
      assert (w + s)[0] == w[0];
      assert (w + s)[1..] == w[1..] + s;
      TrimStartPadded(w[1..], s);
    }
  }

  /** Trailing whitespace after a text is invisible to `TrimEnd`. */
  lemma {:induction false} TrimEndPadded(s: string, w: string)
    requires AllWhitespace(w)
    ensures TrimEnd(s + w) == TrimEnd(s)
  {
    if w == [] {
      assert s + w == s;
    } else {
      assert (s + w)[|s + w| - 1] == w[|w| - 1];
      assert (s + w)[..|s + w| - 1] == s + w[..|w| - 1];
      TrimEndPadded(s, w[..|w| - 1]);
    }
  }

  /** Whatever follows a text that is not all whitespace survives `TrimStart`. */
  lemma {:induction false} TrimStartAppend(s: string, t: string)
    requires !AllWhitespace(s)
    ensures TrimStart(s + t) == TrimStart(s) + t
  {
    if IsWhitespace(s[0]) {
      assert (s + t)[1..] == s[1..] + t;
      TrimStartAppend(s[1..], t);
    }
  }

  /** Whatever precedes a text that is not all whitespace survives `TrimEnd`. */
  lemma {:induction false} TrimEndPrepend(t: string, s: string)
    requires !AllWhitespace(s)
    ensures TrimEnd(t + s) == t + TrimEnd(s)
  {
    if IsWhitespace(s[|s| - 1]) {
      assert (t + s)[..|t + s| - 1] == t + s[..|s| - 1];
      TrimEndPrepend(t, s[..|s| - 1]);
    }
  }

  /** Two texts that differ only by surrounding whitespace trim to the same text. */
  lemma TrimIgnoresPadding(w1: string, s: string, w2: string)
    requires AllWhitespace(w1) && AllWhitespace(w2)
    ensures Trim(w1 + s + w2) == Trim(s)
  {
    var tail := s + w2;
    assert w1 + s + w2 == w1 + tail;
    TrimStartPadded(w1, tail);
    assert Trim(w1 + s + w2) == TrimEnd(TrimStart(tail));
    if AllWhitespace(s) {
      AllWhitespaceAppend(s, w2);
      TrimBlankIff(tail);
      TrimBlankIff(s);
    } else {
      TrimStartAppend(s, w2);
      TrimEndPadded(TrimStart(s), w2);
    }
  }

  /** The case map of `toLowerCase` on the capitals of Basic Latin and Latin-1. */
  function LowerChar(c: char): char {
    if 'A' <= c <= 'Z' || ('\U{00C0}' <= c <= '\U{00DE}' && c != '\U{00D7}') then
      (c as int + 32) as char
    else c
  }

  /** `String.prototype.toLowerCase`, character by character. */
  function ToLower(s: string): (r: string)
    ensures |r| == |s|
    ensures forall i :: 0 <= i < |s| ==> r[i] == LowerChar(s[i])
  {
    seq(|s|, i requires 0 <= i < |s| => LowerChar(s[i]))
  }

  /** Lower-casing twice is lower-casing once. */
  lemma ToLowerIdempotent(s: string)
    ensures ToLower(ToLower(s)) == ToLower(s)
  {
    assert forall i :: 0 <= i < |s| ==> LowerChar(LowerChar(s[i])) == LowerChar(s[i]);
  }

  /** Lower-casing neither creates nor removes whitespace. */
  lemma LowerCharKeepsWhitespace(c: char)
    ensures IsWhitespace(LowerChar(c)) <==> IsWhitespace(c)
  {
  }

  lemma {:induction false} ToLowerTrimStart(s: string)
    ensures ToLower(TrimStart(s)) == TrimStart(ToLower(s))
  {
    if |s| > 0 {
      LowerCharKeepsWhitespace(s[0]);
      if IsWhitespace(s[0]) {
        assert ToLower(s)[1..] == ToLower(s[1..]);
        ToLowerTrimStart(s[1..]);
      }
    }
  }

  lemma {:induction false} ToLowerTrimEnd(s: string)
    ensures ToLower(TrimEnd(s)) == TrimEnd(ToLower(s))
  {
    if |s| > 0 {
      LowerCharKeepsWhitespace(s[|s| - 1]);
      if IsWhitespace(s[|s| - 1]) {
        assert ToLower(s)[..|s| - 1] == ToLower(s[..|s| - 1]);
        ToLowerTrimEnd(s[..|s| - 1]);
      }
    }
  }

  /** Trimming and lower-casing commute. */
  lemma ToLowerTrim(s: string)
    ensures ToLower(Trim(s)) == Trim(ToLower(s))
  {
    ToLowerTrimStart(s);
    ToLowerTrimEnd(TrimStart(s));
  }

  /** `sub` occurs in `s` at some position. */
  ghost predicate OccursIn(sub: string, s: string) {
    exists i :: 0 <= i <= |s| && sub <= s[i..]
  }

  /** `String.prototype.includes`, scanning from the left: true exactly when
      `sub` occurs in `s` at some position. */
  function Includes(s: string, sub: string): (r: bool)
    ensures r <==> OccursIn(sub, s)
    decreases |s|
  {
    if sub <= s then
      assert sub <= s[0..];
      true
    else if |s| == 0 then
      false
    else
      var r := Includes(s[1..], sub);
      assert forall i :: 1 <= i <= |s| ==> s[i..] == s[1..][i - 1..];
      r
  }

  predicate IsDigit(c: char) {
    '0' <= c <= '9'
  }

  /** True exactly when `parseFloat(s)` is not NaN. `parseFloat` skips leading
      whitespace, accepts an optional sign, and then reads the longest prefix
      that is a decimal literal: `Infinity`, digits, or a point followed by a
      digit. Whatever follows that prefix is ignored, so `"3abc"` reads as 3.
      Judged by the first character after the whitespace: a digit always
      reads a number, a character that cannot begin a literal never does,
      and a text that reads a number is never blank. */
  function ParseFloatReadsNumber(s: string): (r: bool)
    ensures r ==> Trim(s) != []
    ensures TrimStart(s) != [] && IsDigit(TrimStart(s)[0]) ==> r
    ensures TrimStart(s) != [] && !IsDigit(TrimStart(s)[0]) && TrimStart(s)[0] !in "+-.I" ==> !r
  {
    var t := TrimStart(s);
    var u := if |t| > 0 && (t[0] == '+' || t[0] == '-') then t[1..] else t;
    var r :=
      || "Infinity" <= u
      || (|u| > 0 && IsDigit(u[0]))
      || (|u| > 1 && u[0] == '.' && IsDigit(u[1]));
    if r then
      TrimStartDrops(s);
      TrimBlankIff(s);
      assert s[|s| - |t|] == t[0];
      r
    else r
  }

  /** `parseFloat` reads the numeric prefix of `"3abc"`: the model makes no
      claim that the whole text is a number. */
  lemma ParseFloatReadsPrefix()
    ensures ParseFloatReadsNumber("3abc")
  {
    assert TrimStart("3abc") == "3abc";
  }

  /** A text with no numeric prefix is NaN to `parseFloat`. */
  lemma ParseFloatRejectsWord()
    ensures !ParseFloatReadsNumber("abc")
  {
    assert !IsWhitespace('a');
    assert TrimStart("abc") == "abc";
  }

  /** A lone point is not a decimal literal. */
  lemma ParseFloatRejectsPoint()
    ensures !ParseFloatReadsNumber(".")
  {
    assert !IsWhitespace('.');
    assert TrimStart(".") == ".";
  }
}
