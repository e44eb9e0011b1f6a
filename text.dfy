/** String helpers with Python 2 semantics for byte strings: `str.strip()`,
    `str.split(sep)`, `str(int)` and `int(str)` in base 10. */
module Text {
  import opened Results

  /** The whitespace set of Python 2's `str.strip()` (`string.whitespace`). */
  predicate IsSpace(c: char) {
    c == ' ' || c == '\t' || c == '\n' || c == '\r' || c as int == 0x0B || c as int == 0x0C
  }

  predicate AllSpace(s: string) { forall k :: 0 <= k < |s| ==> IsSpace(s[k]) }

  /** Neither end of `s` is whitespace. */
  predicate Unpadded(s: string) { s == [] || (!IsSpace(s[0]) && !IsSpace(s[|s| - 1])) }

  /** Remove leading whitespace. */
  function TrimLeft(s: string): (r: string)
    ensures |r| <= |s| && r == s[|s| - |r|..]
    ensures AllSpace(s[..|s| - |r|])
    ensures r == [] || !IsSpace(r[0])
  {
    if |s| > 0 && IsSpace(s[0]) then
      var r := TrimLeft(s[1..]);
      assert s[..|s| - |r|] == [s[0]] + s[1..][..|s| - 1 - |r|];
      r
    else s
  }

  lemma TrimLeftSpace(c: char, s: string)
    requires IsSpace(c)
    ensures TrimLeft([c] + s) == TrimLeft(s)
  {
    assert ([c] + s)[1..] == s;
  }

  /** Remove trailing whitespace. */
  function TrimRight(s: string): (r: string)
    ensures |r| <= |s| && r == s[..|r|]
    ensures AllSpace(s[|r|..])
    ensures r == [] || !IsSpace(r[|r| - 1])
  {
    if |s| > 0 && IsSpace(s[|s| - 1]) then
      var r := TrimRight(s[..|s| - 1]);
      assert s[|r|..] == s[..|s| - 1][|r|..] + [s[|s| - 1]];
      r
    else s
  }

  /** Python's `s.strip()`: whitespace removed from both ends; a string
      without whitespace at its ends is left as it is. */
  function Strip(s: string): (r: string)
    ensures |r| <= |s| && Unpadded(r)
    ensures Unpadded(s) ==> r == s
  {
    TrimRight(TrimLeft(s))
  }

  /** `Strip` adds no character: one absent from `s` is absent from `Strip(s)`. */
  lemma {:induction false} StripKeepsAbsent(s: string, c: char)
    requires c !in s
    ensures c !in Strip(s)
  {
    TrimLeftKeepsAbsent(s, c);
    TrimRightKeepsAbsent(TrimLeft(s), c);
  }

  lemma {:induction false} TrimLeftKeepsAbsent(s: string, c: char)
    requires c !in s
    ensures c !in TrimLeft(s)
  {
    var l := TrimLeft(s);
    forall k | 0 <= k < |l| ensures l[k] != c {
      assert l[k] == s[|s| - |l| + k];
    }
  }

  lemma {:induction false} TrimRightKeepsAbsent(s: string, c: char)
    requires c !in s
    ensures c !in TrimRight(s)
  {
    var r := TrimRight(s);
    forall k | 0 <= k < |r| ensures r[k] != c {
      assert r[k] == s[k];
    }
  }

  predicate SeparatorFree(pieces: seq<string>, sep: char) {
    forall k :: 0 <= k < |pieces| ==> sep !in pieces[k]
  }

  /** Python's `s.split(sep)` for a one-character separator: the pieces
      between consecutive separators; a single piece when there is no separator. */
  function Split(s: string, sep: char): (r: seq<string>)
    ensures |r| >= 1 && SeparatorFree(r, sep)
  {
    if s == [] then [""]
    else
      var rest := Split(s[1..], sep);
      if s[0] == sep then [""] + rest
      else [[s[0]] + rest[0]] + rest[1..]
  }

  /** There is a second piece exactly when the separator occurs. */
  lemma {:induction false} SplitSeparates(s: string, sep: char)
    ensures |Split(s, sep)| >= 2 <==> sep in s
  {
    if s != [] {
      SplitSeparates(s[1..], sep);
      assert s == [s[0]] + s[1..];
    }
  }

  lemma {:induction false} SplitWithoutSeparator(s: string, sep: char)
    requires sep !in s
    ensures Split(s, sep) == [s]
  {
    if s != [] {
      SplitWithoutSeparator(s[1..], sep);
      assert [s[0]] + s[1..] == s;
    }
  }

  lemma {:induction false} SplitAtFirstSeparator(a: string, sep: char, b: string)
    requires sep !in a
    ensures Split(a + [sep] + b, sep) == [a] + Split(b, sep)
  {
    if a == [] {
      assert a + [sep] + b == [sep] + b;
      assert ([sep] + b)[1..] == b;
    } else {
      SplitAtFirstSeparator(a[1..], sep, b);
      assert (a + [sep] + b)[1..] == a[1..] + [sep] + b;
      assert [a[0]] + a[1..] == a;
    }
  }

  predicate IsDigit(c: char) { '0' <= c <= '9' }

  function DigitChar(d: nat): (c: char)
    requires d < 10
    ensures IsDigit(c) && c as int - '0' as int == d
  {
    ('0' as int + d) as char
  }

  /** Decimal digits of `n` without leading zeros: Python's `str(n)` for `n >= 0`. */
  function NatToString(n: nat): (s: string)
    ensures |s| > 0 && forall k :: 0 <= k < |s| ==> IsDigit(s[k])
  {
    if n < 10 then [DigitChar(n)] else NatToString(n / 10) + [DigitChar(n % 10)]
  }

  /** Python's `str(i)` for an integer. */
  function IntToString(i: int): (s: string)
    ensures |s| > 0 && ':' !in s && '\n' !in s
    ensures !IsSpace(s[0]) && IsDigit(s[|s| - 1])
  {
    if i < 0 then "-" + NatToString(-i) else NatToString(i)
  }

  predicate AllDigits(s: string) { forall k :: 0 <= k < |s| ==> IsDigit(s[k]) }

  /** The value of a string of decimal digits, read left to right. */
  function DigitsValue(s: string): nat
    requires AllDigits(s)
  {
    if s == [] then 0 else DigitsValue(s[..|s| - 1]) * 10 + (s[|s| - 1] as int - '0' as int)
  }

  /** Python 2's `int(s)` in base 10 on an already stripped string: an
      optional sign, then (as CPython 2's `strtol` skips it) optional
      whitespace, then at least one decimal digit; anything else raises
      ValueError. */
  function ParseInt(s: string): (r: Option<int>)
    ensures r.Some? ==> |s| > 0 && (IsDigit(s[0]) || s[0] == '-' || s[0] == '+')
  {
    if |s| > 0 && (s[0] == '-' || s[0] == '+') then
      var body := TrimLeft(s[1..]);
      if |body| > 0 && AllDigits(body) then
        var v: int := DigitsValue(body);
        Some(if s[0] == '-' then -v else v)
      else None
    else if |s| > 0 && AllDigits(s) then Some(DigitsValue(s))
    else None
  }

  /** An unsigned digit string reads as its decimal value. */
  lemma ParseDigits(d: string)
    requires |d| > 0 && AllDigits(d)
    ensures ParseInt(d) == Some(DigitsValue(d))
  {
    assert IsDigit(d[0]);
  }

  /** Dropping leading whitespace in front of a non-blank string. */
  lemma {:induction false} TrimLeftBlanks(w: string, d: string)
    requires AllSpace(w) && (d == [] || !IsSpace(d[0]))
    ensures TrimLeft(w + d) == d
    decreases |w|
  {
    if w == [] {
      assert w + d == d;
    } else {
      assert w + d == [w[0]] + (w[1..] + d);
      TrimLeftSpace(w[0], w[1..] + d);
      TrimLeftBlanks(w[1..], d);
    }
  }

  /** A sign, any run of whitespace and a digit string read as the signed
      value of the digits, as `int("- 5") == -5` in Python 2. */
  lemma {:induction false} ParseSignedNumeral(sign: char, w: string, d: string)
    requires sign == '-' || sign == '+'
    requires AllSpace(w) && |d| > 0 && AllDigits(d)
    ensures var v: int := DigitsValue(d); ParseInt([sign] + (w + d)) == Some(if sign == '-' then -v else v)
  {
    var s := [sign] + (w + d);
    assert s[0] == sign && s[1..] == w + d;
    assert !IsSpace(d[0]) by { assert IsDigit(d[0]); }
    TrimLeftBlanks(w, d);
    assert TrimLeft(s[1..]) == d;
    assert !AllDigits(s) by { assert !IsDigit(s[0]); }
  }

  lemma {:induction false} DigitsValueOfNatToString(n: nat)
    ensures DigitsValue(NatToString(n)) == n
  {
    if n >= 10 {
      DigitsValueOfNatToString(n / 10);
      var s := NatToString(n / 10) + [DigitChar(n % 10)];
      assert s[..|s| - 1] == NatToString(n / 10);
    }
  }

  /** `int(str(i)) == i` for every integer. */
  lemma {:induction false} ParseIntToString(i: int)
    ensures ParseInt(IntToString(i)) == Some(i)
  {
    if i < 0 {
      ParseNegativeToString(i);
    } else {
      DigitsValueOfNatToString(i);
      ParseDigits(NatToString(i));
    }
  }

  lemma {:induction false} ParseNegativeToString(i: int)
    requires i < 0
    ensures ParseInt(IntToString(i)) == Some(i)
  {
    var digits := NatToString(-i);
    calc {
      ParseInt(IntToString(i));
      ParseInt("-" + digits);
      { ParseNegativeNumeral(digits); }
      Some(-(DigitsValue(digits) as int));
      { DigitsValueOfNatToString(-i); }
      Some(i);
    }
  }

  /** A minus sign directly before a digit string negates its value. */
  lemma {:induction false} ParseNegativeNumeral(d: string)
    requires |d| > 0 && AllDigits(d)
    ensures ParseInt("-" + d) == Some(-(DigitsValue(d) as int))
  {
    assert "-" + d == ['-'] + ([] + d);
    ParseSignedNumeral('-', [], d);
  }

  /** The text of a file written line by line, each line followed by `\n`. */
  function Unlines(lines: seq<string>): (r: string)
    ensures r == [] <==> lines == []
    ensures lines != [] ==> r[|r| - 1] == '\n'
    ensures |r| >= |lines|
  {
    if lines == [] then "" else lines[0] + "\n" + Unlines(lines[1..])
  }

  /** The lines of a file as Python 2 iterates them, without their `\n`
      terminators: a final line without a terminator still counts, and the
      empty text has no lines. */
  function ReadLines(text: string): (r: seq<string>)
    ensures forall k :: 0 <= k < |r| ==> '\n' !in r[k]
    ensures text == [] ==> r == []
  {
    var pieces := Split(text, '\n');
    if pieces[|pieces| - 1] == "" then pieces[..|pieces| - 1] else pieces
  }

  lemma {:induction false} SplitUnlines(lines: seq<string>)
    requires forall k :: 0 <= k < |lines| ==> '\n' !in lines[k]
    ensures Split(Unlines(lines), '\n') == lines + [""]
  {
    if lines != [] {
      SplitUnlines(lines[1..]);
      SplitAtFirstSeparator(lines[0], '\n', Unlines(lines[1..]));
      assert lines[0] + "\n" + Unlines(lines[1..]) == lines[0] + ['\n'] + Unlines(lines[1..]);
      assert lines == [lines[0]] + lines[1..];
    }
  }

  /** Reading back a file written line by line gives the lines written,
      provided none of them contains a newline. */
  lemma ReadLinesUnlines(lines: seq<string>)
    requires forall k :: 0 <= k < |lines| ==> '\n' !in lines[k]
    ensures ReadLines(Unlines(lines)) == lines
  {
    SplitUnlines(lines);
    assert (lines + [""])[..|lines|] == lines;
  }
}
