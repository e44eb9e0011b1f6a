/** The tokenizer of `TfIdf.get_tokens`: `re.findall` of the pattern
    `<a.*?/a>|<[^\>]*>|[\w'@#]+` over the lower-cased input, written out as a
    left-to-right scanner. Characters are those of a Python 2 byte string, so
    lower-casing and `\w` are ASCII only. */
module Tokenizer {
  import opened Results

  predicate IsUpper(c: char) { 'A' <= c <= 'Z' }

  /** Python 2's `str.lower()` on one byte. */
  function LowerChar(c: char): (r: char)
    ensures !IsUpper(r)
    ensures !IsUpper(c) ==> r == c
    ensures IsUpper(c) ==> r as int - c as int == 'a' as int - 'A' as int
  {
    if IsUpper(c) then (c as int - 'A' as int + 'a' as int) as char else c
  }

  predicate IsLowerCase(s: string) { forall k :: 0 <= k < |s| ==> !IsUpper(s[k]) }

  function Lower(s: string): (r: string)
    ensures |r| == |s| && IsLowerCase(r)
    ensures forall k :: 0 <= k < |s| ==> r[k] == LowerChar(s[k])
  {
    seq(|s|, k requires 0 <= k < |s| => LowerChar(s[k]))
  }

  /** The character class `[\w'@#]` with ASCII `\w`. */
  predicate IsWordChar(c: char) {
    ('a' <= c <= 'z') || ('A' <= c <= 'Z') || ('0' <= c <= '9') || c == '_' || c == '\'' || c == '@' || c == '#'
  }

  /** The literal `/a>` that closes the first alternative starts at `k`. */
  predicate AnchorCloseAt(t: string, k: int) {
    0 <= k && k + 3 <= |t| && t[k] == '/' && t[k + 1] == 'a' && t[k + 2] == '>'
  }

  /** A newline lies at some position from `j` up to, not including, `k`. */
  predicate NewlineBefore(t: string, j: nat, k: int) {
    exists m :: j <= m < k && m < |t| && t[m] == '\n'
  }

  /** Every `/a>` at or after `j` lies behind a newline: `.*?/a>` cannot
      match from `j`. */
  predicate NoAnchorClose(t: string, j: nat) {
    forall k :: j <= k < |t| && AnchorCloseAt(t, k) ==> NewlineBefore(t, j, k)
  }

  /** The lazy `.*?/a>` from position `j`: the end of the first `/a>` at or
      after `j`, provided no newline (which `.` does not match) comes before it. */
  function FindAnchorClose(t: string, j: nat): (r: Option<nat>)
    requires j <= |t|
    decreases |t| - j
    ensures r.Some? ==> j + 3 <= r.value <= |t| && AnchorCloseAt(t, r.value - 3)
    ensures r.Some? ==> forall k :: j <= k < r.value - 3 ==> t[k] != '\n' && !AnchorCloseAt(t, k)
    ensures r.None? ==> NoAnchorClose(t, j)
  {
    if AnchorCloseAt(t, j) then Some(j + 3)
    else if j < |t| && t[j] != '\n' then FindAnchorClose(t, j + 1)
    else None
  }

  /** First alternative, `<a.*?/a>`, at position `i`: the end of the match. */
  function MatchAnchor(t: string, i: nat): (r: Option<nat>)
    requires i <= |t|
    ensures r.Some? ==> i + 5 <= r.value <= |t| && t[i] == '<' && t[i + 1] == 'a'
    ensures r.Some? ==> AnchorCloseAt(t, r.value - 3)
  {
    if i + 2 <= |t| && t[i] == '<' && t[i + 1] == 'a' then FindAnchorClose(t, i + 2) else None
  }

  /** The first alternative matches at `i` exactly when `<a` stands there and
      some `/a>` after it is reached without crossing a newline. */
  lemma AnchorMatchesExactly(t: string, i: nat)
    requires i <= |t|
    ensures MatchAnchor(t, i).Some? <==>
      i + 2 <= |t| && t[i] == '<' && t[i + 1] == 'a' && !NoAnchorClose(t, i + 2)
  {
    var r := MatchAnchor(t, i);
    if r.Some? {
      assert !NewlineBefore(t, i + 2, r.value - 3);
    }
  }

  /** `[^\>]*>` from position `j`: the end of the first `>` at or after `j`. */
  function FindTagClose(t: string, j: nat): (r: Option<nat>)
    requires j <= |t|
    decreases |t| - j
    ensures r.Some? ==> j < r.value <= |t| && t[r.value - 1] == '>'
    ensures r.Some? ==> forall k :: j <= k < r.value - 1 ==> t[k] != '>'
    ensures r.None? ==> forall k :: j <= k < |t| ==> t[k] != '>'
  {
    if j == |t| then None
    else if t[j] == '>' then Some(j + 1)
    else FindTagClose(t, j + 1)
  }

  /** Second alternative, `<[^\>]*>`, at position `i`: a `<` closed by the
      first `>` after it. */
  function MatchTag(t: string, i: nat): (r: Option<nat>)
    requires i <= |t|
    ensures r.Some? <==> i < |t| && t[i] == '<' && exists k :: i < k < |t| && t[k] == '>'
    ensures r.Some? ==> i + 2 <= r.value <= |t| && t[r.value - 1] == '>'
    ensures r.Some? ==> forall k :: i < k < r.value - 1 ==> t[k] != '>'
  {
    if i < |t| && t[i] == '<' then FindTagClose(t, i + 1) else None
  }

  /** Greedy `[\w'@#]*` from position `j`: the end of the longest run. */
  function WordEnd(t: string, j: nat): (e: nat)
    requires j <= |t|
    decreases |t| - j
    ensures j <= e <= |t|
    ensures forall k :: j <= k < e ==> IsWordChar(t[k])
    ensures e == |t| || !IsWordChar(t[e])
  {
    if j < |t| && IsWordChar(t[j]) then WordEnd(t, j + 1) else j
  }

  /** The regex at position `i`: the three alternatives tried in order, the
      first that matches wins. The result is the end of the match, which is
      never empty; a word character always starts one. */
  function NextMatch(t: string, i: nat): (r: Option<nat>)
    requires i <= |t|
    ensures r.Some? ==> i < r.value <= |t|
    ensures i < |t| && IsWordChar(t[i]) ==> r.Some?
  {
    match MatchAnchor(t, i)
    case Some(e) => Some(e)
    case None =>
      match MatchTag(t, i)
      case Some(e) => Some(e)
      case None =>
        var e := WordEnd(t, i);
        if e > i then Some(e) else None
  }

  /** The anchor alternative wins over the tag one: on `<a>b/a>` the match
      runs to the closing `/a>`, and only a newline before it leaves the tag. */
  lemma AnchorBeatsTag()
    ensures NextMatch("<a>b/a>", 0) == Some(7)
    ensures NextMatch("<a>\n/a>", 0) == Some(3)
  {
  }

  /** A half-open range `[start, end)` of the scanned string. */
  datatype Span = Span(start: nat, end: nat)

  predicate Covered(spans: seq<Span>, p: int) {
    exists k :: 0 <= k < |spans| && spans[k].start <= p < spans[k].end
  }

  /** `re.findall` from position `i`: at each position the regex is tried;
      after a match the scan resumes at its end, otherwise one character on. */
  function Scan(t: string, i: nat): (r: seq<Span>)
    requires i <= |t|
    decreases |t| - i
    ensures forall k :: 0 <= k < |r| ==> i <= r[k].start < r[k].end <= |t|
    ensures forall k :: 0 <= k < |r| ==> NextMatch(t, r[k].start) == Some(r[k].end)
    ensures forall k :: 0 <= k < |r| - 1 ==> r[k].end <= r[k + 1].start
  {
    if i == |t| then []
    else
      match NextMatch(t, i)
      case Some(e) => [Span(i, e)] + Scan(t, e)
      case None => Scan(t, i + 1)
  }

  /** `get_tokens`: the matched substrings of the lower-cased input. */
  function Tokens(s: string): (r: seq<string>)
    ensures forall k :: 0 <= k < |r| ==> |r[k]| > 0 && IsLowerCase(r[k])
  {
    var t := Lower(s);
    var spans := Scan(t, 0);
    seq(|spans|, k requires 0 <= k < |spans| => t[spans[k].start..spans[k].end])
  }

  /** A whole `<a ... /a>` span: no newline inside and no earlier `/a>`. */
  predicate IsAnchorToken(w: string) {
    && |w| >= 5 && w[0] == '<' && w[1] == 'a' && AnchorCloseAt(w, |w| - 3)
    && forall k :: 2 <= k < |w| - 3 ==> w[k] != '\n' && !AnchorCloseAt(w, k)
  }

  /** A `<...>` span with no `>` before its last character. */
  predicate IsTagToken(w: string) {
    && |w| >= 2 && w[0] == '<' && w[|w| - 1] == '>'
    && forall k :: 0 <= k < |w| - 1 ==> w[k] != '>'
  }

  /** A non-empty run of word characters, apostrophes, `@` and `#`. */
  predicate IsWordToken(w: string) {
    |w| > 0 && forall k :: 0 <= k < |w| ==> IsWordChar(w[k])
  }

  /** Every match has one of the three shapes; a tag starting with `<a` is
      matched only when no `/a>` can close an anchor there, and a word match
      is maximal, so the character after it is not a word character. */
  lemma MatchShape(t: string, i: nat)
    requires i <= |t| && NextMatch(t, i).Some?
    ensures var e := NextMatch(t, i).value;
      i < e <= |t| &&
      (IsAnchorToken(t[i..e]) ||
       (IsTagToken(t[i..e]) && (t[i + 1] == 'a' ==> NoAnchorClose(t, i + 2))) ||
       (IsWordToken(t[i..e]) && (e == |t| || !IsWordChar(t[e]))))
  {
    var e := NextMatch(t, i).value;
    var w := t[i..e];
    AnchorMatchesExactly(t, i);
    if MatchAnchor(t, i).Some? {
      assert IsAnchorToken(w) by {
        forall k | 2 <= k < |w| - 3 ensures w[k] != '\n' && !AnchorCloseAt(w, k) {
          assert w[k] == t[i + k];
          assert AnchorCloseAt(w, k) ==> AnchorCloseAt(t, i + k);
        }
        assert AnchorCloseAt(t, e - 3);
      }
    } else if MatchTag(t, i).Some? {
      assert IsTagToken(w) by {
        forall k | 0 <= k < |w| - 1 ensures w[k] != '>' {
          assert w[k] == t[i + k];
        }
      }
    } else {
      assert IsWordToken(w) by {
        forall k | 0 <= k < |w| ensures IsWordChar(w[k]) { assert w[k] == t[i + k]; }
      }
    }
  }

  /** The regex matches nothing at `p` exactly when the byte there is no
      word character and is not a `<` closed by a later `>`. */
  lemma NoMatchExactlyUnmatchable(t: string, p: nat)
    requires p < |t|
    ensures NextMatch(t, p).None? <==>
      !IsWordChar(t[p]) && (t[p] == '<' ==> forall k :: p < k < |t| ==> t[k] != '>')
  {
    if NextMatch(t, p).None? {
      assert MatchAnchor(t, p).None? && MatchTag(t, p).None?;
    } else if MatchAnchor(t, p).Some? {
      var e := MatchAnchor(t, p).value;
      assert t[e - 1] == '>';
    } else if MatchTag(t, p).Some? {
      var e := MatchTag(t, p).value;
      assert t[e - 1] == '>';
    }
  }

  /** Every position of the scanned suffix is inside a span, or the regex
      matches nothing there: the scan skips no token. */
  lemma {:induction false} ScanCoversMatches(t: string, i: nat, p: nat)
    requires i <= p < |t|
    ensures Covered(Scan(t, i), p) || NextMatch(t, p).None?
    decreases |t| - i
  {
    var m := NextMatch(t, i);
    if m.Some? {
      var e := m.value;
      var rest := ScanFrom(t, i, e);
      if p < e {
        CoveredFirst(Span(i, e), rest, p);
      } else {
        ScanCoversMatches(t, e, p);
        if Covered(rest, p) {
          CoveredBehind(Span(i, e), rest, p);
        }
      }
    } else if p > i {
      ScanCoversMatches(t, i + 1, p);
    }
  }

  /** One step of the scan after a match from `i` to `e`. */
  lemma ScanFrom(t: string, i: nat, e: nat) returns (rest: seq<Span>)
    requires i < e <= |t| && NextMatch(t, i) == Some(e)
    ensures rest == Scan(t, e) && Scan(t, i) == [Span(i, e)] + rest
  {
    rest := Scan(t, e);
  }

  lemma CoveredFirst(s: Span, rest: seq<Span>, p: int)
    requires s.start <= p < s.end
    ensures Covered([s] + rest, p)
  {
    assert ([s] + rest)[0] == s;
  }

  lemma CoveredBehind(s: Span, rest: seq<Span>, p: int)
    requires Covered(rest, p)
    ensures Covered([s] + rest, p)
  {
    var k :| 0 <= k < |rest| && rest[k].start <= p < rest[k].end;
    assert ([s] + rest)[k + 1] == rest[k];
  }

  /** `get_tokens` as a whole: the tokens are, in order, the substrings at
      increasing non-overlapping spans of the lower-cased input; each is an
      anchor span, a tag (one starting `<a` only where no anchor can close)
      or a maximal word run; every character outside the
      spans is one the regex cannot match at. */
  lemma TokensAreOrderedMatches(s: string)
    ensures var t := Lower(s); var spans := Scan(t, 0);
      && |Tokens(s)| == |spans|
      && (forall k :: 0 <= k < |spans| ==> Tokens(s)[k] == t[spans[k].start..spans[k].end])
      && (forall k :: 0 <= k < |spans| - 1 ==> spans[k].end <= spans[k + 1].start)
      && (forall k :: 0 <= k < |spans| ==>
            var w := Tokens(s)[k];
            IsAnchorToken(w) ||
            (IsTagToken(w) && (w[1] == 'a' ==> NoAnchorClose(t, spans[k].start + 2))) ||
            (IsWordToken(w) && (spans[k].end == |t| || !IsWordChar(t[spans[k].end]))))
      && (forall p :: 0 <= p < |t| && !Covered(spans, p) ==>
            !IsWordChar(t[p]) && (t[p] == '<' ==> forall k :: p < k < |t| ==> t[k] != '>'))
  {
    var t := Lower(s);
    var spans := Scan(t, 0);
    forall k | 0 <= k < |spans|
      ensures var w := Tokens(s)[k];
        IsAnchorToken(w) ||
        (IsTagToken(w) && (w[1] == 'a' ==> NoAnchorClose(t, spans[k].start + 2))) ||
        (IsWordToken(w) && (spans[k].end == |t| || !IsWordChar(t[spans[k].end])))
    {
      MatchShape(t, spans[k].start);
    }
    forall p | 0 <= p < |t| && !Covered(spans, p)
      ensures !IsWordChar(t[p]) && (t[p] == '<' ==> forall k :: p < k < |t| ==> t[k] != '>')
    {
      ScanCoversMatches(t, 0, p);
      NoMatchExactlyUnmatchable(t, p);
    }
  }
}
