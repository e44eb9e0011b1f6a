/** The corpus file: a first line holding the number of documents, then one
    `term: count` line per term. Reading is the loop in `TfIdf.__init__`,
    writing the first half of `save_corpus_to_file`. */
module CorpusFormat {
  import opened Results
  import opened Text

  /** A snapshot of the corpus counts. */
  datatype Corpus = Corpus(numDocs: int, termNumDocs: map<string, int>)

  /** One term line as written: `term + ": " + str(count)`. */
  function EntryLine(term: string, count: int): (r: string)
    ensures |r| > |term| + 2 && r[..|term|] == term && r[|term|] == ':'
  {
    term + ": " + IntToString(count)
  }

  /** One term line as read: split at every `:`, the stripped first piece is
      the term and the stripped second piece its count. A line without `:`
      (IndexError) or whose second piece is no integer (ValueError) fails;
      pieces after the second are ignored. */
  function ParseEntry(line: string): (r: Option<(string, int)>)
    ensures ':' !in line ==> r.None?
    ensures r.Some? ==> Unpadded(r.value.0)
  {
    SplitSeparates(line, ':');
    var pieces := Split(line, ':');
    if |pieces| < 2 then None
    else
      match ParseInt(Strip(pieces[1]))
      case None => None
      case Some(f) => Some((Strip(pieces[0]), f))
  }

  /** A term read from a line has no `:`. */
  lemma {:induction false} ParseEntryShape(line: string)
    ensures ParseEntry(line).Some? ==> ':' !in ParseEntry(line).value.0
  {
    var pieces := Split(line, ':');
    if |pieces| >= 2 {
      StripKeepsAbsent(pieces[0], ':');
    }
  }

  /** Each line parsed on its own. */
  function ParseLines(lines: seq<string>): (r: seq<Option<(string, int)>>)
    ensures |r| == |lines|
  {
    seq(|lines|, k requires 0 <= k < |lines| => ParseEntry(lines[k]))
  }

  predicate AllParsed(entries: seq<Option<(string, int)>>) {
    forall k :: 0 <= k < |entries| ==> entries[k].Some?
  }

  /** The parsed lines assigned in order into a dictionary, as
      `self.term_num_docs[term] = frequency` does: a later line for the same
      term overwrites an earlier one, and any bad line fails the whole read. */
  function Assign(entries: seq<Option<(string, int)>>): (r: Option<map<string, int>>)
    ensures r.Some? <==> AllParsed(entries)
  {
    if entries == [] then Some(map[])
    else
      var init := entries[..|entries| - 1];
      var last := entries[|entries| - 1];
      assert AllParsed(entries) <==> AllParsed(init) && last.Some? by {
        assert forall k :: 0 <= k < |init| ==> init[k] == entries[k];
      }
      match Assign(init)
      case None => None
      case Some(m) =>
        match last
        case None => None
        case Some(e) => Some(m[e.0 := e.1])
  }

  /** The term lines of a corpus file read into a dictionary. */
  function ParseEntries(lines: seq<string>): (r: Option<map<string, int>>)
    ensures r.Some? <==> forall k :: 0 <= k < |lines| ==> ParseEntry(lines[k]).Some?
  {
    var entries := ParseLines(lines);
    assert forall k :: 0 <= k < |lines| ==> entries[k] == ParseEntry(lines[k]);
    Assign(entries)
  }

  /** The whole corpus file, given as its lines. The empty file fails, since
      `int("")` raises ValueError. */
  function ParseCorpus(lines: seq<string>): (r: Option<Corpus>)
    ensures lines == [] ==> r.None?
    ensures r.Some? <==>
      |lines| > 0 && ParseInt(Strip(lines[0])).Some? && AllParsed(ParseLines(lines[1..]))
  {
    if lines == [] then None
    else
      match ParseInt(Strip(lines[0]))
      case None => None
      case Some(n) =>
        match ParseEntries(lines[1..])
        case None => None
        case Some(m) => Some(Corpus(n, m))
  }

  /** A term that survives being written and read back: no `:` (the reader
      splits there), no newline (the file would break the line there) and no
      whitespace at either end (the reader strips it). */
  predicate Storable(term: string) {
    ':' !in term && '\n' !in term && Unpadded(term)
  }

  /** The term lines written for the terms of `order`, in that order. */
  function EntryLines(counts: map<string, int>, order: seq<string>): (r: seq<string>)
    requires forall k :: 0 <= k < |order| ==> order[k] in counts
    ensures |r| == |order|
  {
    seq(|order|, k requires 0 <= k < |order| => EntryLine(order[k], counts[order[k]]))
  }

  /** The lines `save_corpus_to_file` writes when the dictionary yields its
      terms in the order `order`. */
  function CorpusLines(c: Corpus, order: seq<string>): (r: seq<string>)
    requires forall k :: 0 <= k < |order| ==> order[k] in c.termNumDocs
    ensures |r| == |order| + 1 && r[0] == IntToString(c.numDocs)
  {
    [IntToString(c.numDocs)] + EntryLines(c.termNumDocs, order)
  }

  lemma {:induction false} EntryRoundTrip(term: string, count: int)
    requires Storable(term)
    ensures ParseEntry(EntryLine(term, count)) == Some((term, count))
  {
    SplitEntryLine(term, count);
    StripCountField(count);
    ParseIntToString(count);
  }

  lemma {:induction false} SplitEntryLine(term: string, count: int)
    requires ':' !in term
    ensures Split(EntryLine(term, count), ':') == [term, " " + IntToString(count)]
  {
    var tail := " " + IntToString(count);
    EntryLineShape(term, count);
    SplitAtFirstSeparator(term, ':', tail);
    SplitWithoutSeparator(tail, ':');
  }

  lemma {:induction false} StripCountField(count: int)
    ensures Strip(" " + IntToString(count)) == IntToString(count)
  {
    var digits := IntToString(count);
    TrimLeftSpace(' ', digits);
    assert Unpadded(digits);
  }

  /** Reading one more line updates the dictionary read so far. */
  lemma {:induction false} ParseEntriesStep(lines: seq<string>, j: nat, m: map<string, int>, e: (string, int))
    requires j < |lines|
    requires ParseEntries(lines[..j]) == Some(m) && ParseEntry(lines[j]) == Some(e)
    ensures ParseEntries(lines[..j + 1]) == Some(m[e.0 := e.1])
  {
    var entries := ParseLines(lines[..j + 1]);
    assert entries[..j] == ParseLines(lines[..j]);
    assert entries[j] == ParseEntry(lines[j]);
  }

  /** One bad line fails the whole read. */
  lemma {:induction false} ParseEntriesFail(lines: seq<string>, j: nat)
    requires j < |lines| && ParseEntry(lines[j]).None?
    ensures ParseEntries(lines).None?
  {
    assert ParseLines(lines)[j].None?;
  }

  /** The map of `counts` restricted to the terms listed in `order`. */
  function Restrict(counts: map<string, int>, order: seq<string>): (r: map<string, int>)
    requires forall k :: 0 <= k < |order| ==> order[k] in counts
    ensures forall t :: t in r <==> t in order
  {
    map t | t in order :: counts[t]
  }

  /** The entries that the term lines of `order` parse to. */
  function Listing(counts: map<string, int>, order: seq<string>): (r: seq<Option<(string, int)>>)
    requires forall k :: 0 <= k < |order| ==> order[k] in counts
    ensures |r| == |order|
  {
    seq(|order|, k requires 0 <= k < |order| => Some((order[k], counts[order[k]])))
  }

  lemma {:induction false} ParseEntryLines(counts: map<string, int>, order: seq<string>)
    requires forall k :: 0 <= k < |order| ==> order[k] in counts && Storable(order[k])
    ensures ParseLines(EntryLines(counts, order)) == Listing(counts, order)
  {
    forall k | 0 <= k < |order|
      ensures ParseLines(EntryLines(counts, order))[k] == Listing(counts, order)[k]
    {
      EntryRoundTrip(order[k], counts[order[k]]);
    }
  }

  /** Assigning the entries of `order` in turn gives each listed term its
      count. */
  lemma {:induction false} AssignListing(counts: map<string, int>, order: seq<string>)
    requires forall k :: 0 <= k < |order| ==> order[k] in counts
    ensures Assign(Listing(counts, order)) == Some(Restrict(counts, order))
  {
    var entries := Listing(counts, order);
    if order != [] {
      var init := order[..|order| - 1];
      var last := order[|order| - 1];
      AssignListing(counts, init);
      assert entries[..|entries| - 1] == Listing(counts, init);
      assert Restrict(counts, init)[last := counts[last]] == Restrict(counts, order) by {
        assert order == init + [last];
      }
    }
  }

  /** The dictionary read back from the term lines of `order`: each listed
      term with its count. */
  lemma {:induction false} EntriesRoundTrip(counts: map<string, int>, order: seq<string>)
    requires forall k :: 0 <= k < |order| ==> order[k] in counts && Storable(order[k])
    ensures ParseEntries(EntryLines(counts, order)) == Some(Restrict(counts, order))
  {
    ParseEntryLines(counts, order);
    AssignListing(counts, order);
  }

  lemma {:induction false} EntryLineHasNoNewline(term: string, count: int)
    requires '\n' !in term
    ensures '\n' !in EntryLine(term, count)
  {
    var line := EntryLine(term, count);
    forall k | 0 <= k < |line| ensures line[k] != '\n' {
      if k >= |term| + 2 {
        assert line[k] == IntToString(count)[k - |term| - 2];
      }
    }
  }

  /** Writing the corpus in any dictionary order and parsing the lines back
      gives the same document count and the same counts. */
  lemma {:induction false} CorpusRoundTrip(c: Corpus, order: seq<string>)
    requires forall k :: 0 <= k < |order| ==> order[k] in c.termNumDocs
    requires forall t :: t in c.termNumDocs ==> t in order && Storable(t)
    ensures ParseCorpus(CorpusLines(c, order)) == Some(c)
  {
    var lines := CorpusLines(c, order);
    assert Strip(lines[0]) == IntToString(c.numDocs) by {
      assert Unpadded(IntToString(c.numDocs));
    }
    assert ParseInt(Strip(lines[0])) == Some(c.numDocs) by {
      ParseIntToString(c.numDocs);
    }
    assert ParseEntries(lines[1..]) == Some(c.termNumDocs) by {
      assert lines[1..] == EntryLines(c.termNumDocs, order);
      EntriesRoundTrip(c.termNumDocs, order);
      assert Restrict(c.termNumDocs, order) == c.termNumDocs;
    }
  }

  /** The same round trip through the file text, whose lines are each
      followed by a newline. */
  lemma {:induction false} CorpusFileRoundTrip(c: Corpus, order: seq<string>)
    requires forall k :: 0 <= k < |order| ==> order[k] in c.termNumDocs
    requires forall t :: t in c.termNumDocs ==> t in order && Storable(t)
    ensures ParseCorpus(ReadLines(Unlines(CorpusLines(c, order)))) == Some(c)
  {
    var lines := CorpusLines(c, order);
    forall k | 0 <= k < |lines| ensures '\n' !in lines[k] {
      if k > 0 {
        EntryLineHasNoNewline(order[k - 1], c.termNumDocs[order[k - 1]]);
      }
    }
    ReadLinesUnlines(lines);
    CorpusRoundTrip(c, order);
  }

  /** The round trip needs terms without `:`. The tokenizer keeps a tag
      such as `<x:y>` whole; its saved line `<x:y>: 1` splits at the tag's
      own `:`, and when what follows that `:` is no integer the whole read
      fails. */
  lemma {:induction false} ColonTermBreaksReload(a: string, b: string, count: int)
    requires ':' !in a && ':' !in b && ParseInt(Strip(b)).None?
    ensures !Storable(a + [':'] + b)
    ensures ParseEntry(EntryLine(a + [':'] + b, count)).None?
  {
    var term := a + [':'] + b;
    var tail := " " + IntToString(count);
    assert term[|a|] == ':';
    EntryLineShape(term, count);
    ConcatAssoc(a + [':'], b, [':'] + tail);
    ConcatAssoc(a + [':'] + b, [':'], tail);
    ConcatAssoc(b, [':'], tail);
    SplitAtFirstSeparator(a, ':', b + [':'] + tail);
    SplitAtFirstSeparator(b, ':', tail);
  }

  /** The written line is the term, a `:` and the count field. */
  lemma {:induction false} EntryLineShape(term: string, count: int)
    ensures EntryLine(term, count) == term + [':'] + (" " + IntToString(count))
  {
    var digits := IntToString(count);
    ConcatAssoc(term, ": ", digits);
    assert ": " == [':'] + " ";
    ConcatAssoc([':'], " ", digits);
    ConcatAssoc(term, [':'], " " + digits);
  }

  lemma {:induction false} ConcatAssoc(x: string, y: string, z: string)
    ensures x + y + z == x + (y + z)
  {
  }

  /** The stopword file as read: each line stripped,
      `[line.strip() for line in stopword_file]`. */
  function ReadStopwords(text: string): (r: seq<string>)
    ensures |r| == |ReadLines(text)|
  {
    var lines := ReadLines(text);
    seq(|lines|, k requires 0 <= k < |lines| => Strip(lines[k]))
  }

  /** Writing storable terms one per line and reading the file back gives
      the same list. */
  lemma {:induction false} StopwordFileRoundTrip(terms: seq<string>)
    requires forall k :: 0 <= k < |terms| ==> Storable(terms[k])
    ensures ReadStopwords(Unlines(terms)) == terms
  {
    ReadLinesUnlines(terms);
  }
}
