/** The `TfIdf` class of tfidf.py: a corpus of document frequencies, a
    stopword list and a default IDF; IDF lookup, keyword scoring of a
    document, adding documents, and saving the corpus and the stopword
    candidates. */
module TfIdfLibrary {
  import opened Results
  import opened Text
  import opened Tokenizer
  import opened Ranking
  import opened CorpusFormat

  /** `set(tokens)`. */
  function Distinct(tokens: seq<string>): (r: set<string>)
    ensures forall w :: w in r <==> w in tokens
    ensures |r| <= |tokens|
  {
    DistinctBound(tokens);
    set w | w in tokens
  }

  lemma {:induction false} DistinctBound(tokens: seq<string>)
    ensures |set w | w in tokens| <= |tokens|
  {
    if tokens != [] {
      var init := tokens[..|tokens| - 1];
      DistinctBound(init);
      assert (set w | w in tokens) == (set w | w in init) + {tokens[|tokens| - 1]} by {
        assert tokens == init + [tokens[|tokens| - 1]];
      }
    }
  }

  /** `set(self.get_tokens(s))`: the distinct tokens of `s`. */
  function TokenSet(s: string): (r: set<string>)
    ensures forall w :: w in r <==> w in Tokens(s)
    ensures forall w :: w in r ==> |w| > 0 && IsLowerCase(w)
  {
    Distinct(Tokens(s))
  }

  /** The count of `t`, with an absent term counting 0. */
  function CountOf(counts: map<string, int>, t: string): int {
    if t in counts then counts[t] else 0
  }

  /** `counts` with each term of `words` raised by one, a new term starting
      at one. */
  function Bump(counts: map<string, int>, words: set<string>): (r: map<string, int>)
    ensures forall t :: t in r <==> t in counts || t in words
    ensures forall t :: t in words ==> r[t] == CountOf(counts, t) + 1
    ensures forall t :: t in counts && t !in words ==> r[t] == counts[t]
  {
    map t | t in counts.Keys + words :: CountOf(counts, t) + (if t in words then 1 else 0)
  }

  /** The corpus after `add_input_document(input)`. */
  function Added(c: Corpus, input: string): (r: Corpus)
    ensures r.numDocs == c.numDocs + 1
    ensures forall t :: t in r.termNumDocs <==> t in c.termNumDocs || t in Tokens(input)
  {
    Corpus(c.numDocs + 1, Bump(c.termNumDocs, TokenSet(input)))
  }

  /** A corpus built from documents: every count lies between one and the
      number of documents. */
  ghost predicate WellFormed(c: Corpus) {
    c.numDocs >= 0 && forall t :: t in c.termNumDocs ==> 1 <= c.termNumDocs[t] <= c.numDocs
  }

  /** No stored term has an upper-case letter. */
  ghost predicate LowerCaseKeys(counts: map<string, int>) {
    forall t :: t in counts ==> IsLowerCase(t)
  }

  /** Each distinct token of the document has its count raised by exactly
      one, or starts at one, however often it occurs in the text; every
      other term keeps its count and the document counter goes up by one. */
  lemma AddedCounts(c: Corpus, input: string)
    ensures Added(c, input).numDocs == c.numDocs + 1
    ensures forall t :: t in Added(c, input).termNumDocs <==> t in c.termNumDocs || t in Tokens(input)
    ensures forall t :: t in Tokens(input) ==> CountOf(Added(c, input).termNumDocs, t) == CountOf(c.termNumDocs, t) + 1
    ensures forall t :: t !in Tokens(input) ==> CountOf(Added(c, input).termNumDocs, t) == CountOf(c.termNumDocs, t)
  {
  }

  /** Adding a document keeps every count between one and the number of
      documents. */
  lemma AddedKeepsWellFormed(c: Corpus, input: string)
    requires WellFormed(c)
    ensures WellFormed(Added(c, input))
  {
  }

  /** Adding a document stores only lower-case terms. */
  lemma AddedKeepsLowerCase(c: Corpus, input: string)
    requires LowerCaseKeys(c.termNumDocs)
    ensures LowerCaseKeys(Added(c, input).termNumDocs)
  {
  }

  /** The corpus after adding `docs`, in order, to an empty one. */
  function Indexed(docs: seq<string>): Corpus {
    if docs == [] then Corpus(0, map[]) else Added(Indexed(docs[..|docs| - 1]), docs[|docs| - 1])
  }

  /** The positions of the documents that contain `t`. */
  function Containing(docs: seq<string>, t: string): set<nat> {
    set i: nat | i < |docs| && t in Tokens(docs[i])
  }

  /** What `term_num_docs` means: after adding documents to an empty corpus,
      the count of each term is the number of those documents that contain
      it, and the document counter is the number of documents. */
  lemma {:induction false} CountsAreDocumentFrequencies(docs: seq<string>, t: string)
    ensures Indexed(docs).numDocs == |docs|
    ensures CountOf(Indexed(docs).termNumDocs, t) == |Containing(docs, t)|
  {
    if docs != [] {
      var init := docs[..|docs| - 1];
      var last := docs[|docs| - 1];
      CountsAreDocumentFrequencies(init, t);
      AddedCounts(Indexed(init), last);
      ContainingSnoc(docs, t);
    }
  }

  lemma ContainingSnoc(docs: seq<string>, t: string)
    requires docs != []
    ensures var n := |docs| - 1;
      Containing(docs, t) == Containing(docs[..n], t) + (if t in Tokens(docs[n]) then {n} else {})
  {
    var n := |docs| - 1;
    var init := docs[..n];
    forall i: nat ensures i in Containing(docs, t) <==> i in Containing(init, t) || (i == n && t in Tokens(docs[n])) {
      if i < n {
        assert init[i] == docs[i];
      }
    }
  }

  /** A corpus built by adding documents is well formed and has only
      lower-case terms. */
  lemma {:induction false} IndexedIsWellFormed(docs: seq<string>)
    ensures WellFormed(Indexed(docs)) && LowerCaseKeys(Indexed(docs).termNumDocs)
  {
    if docs != [] {
      IndexedIsWellFormed(docs[..|docs| - 1]);
      AddedKeepsWellFormed(Indexed(docs[..|docs| - 1]), docs[|docs| - 1]);
      AddedKeepsLowerCase(Indexed(docs[..|docs| - 1]), docs[|docs| - 1]);
    }
  }

  /** `r` is `counts` with each term of `words` raised by one: the state
      of the loop of `add_input_document` once the words of `words` are
      done. */
  ghost predicate Bumped(counts: map<string, int>, words: set<string>, r: map<string, int>) {
    && (forall t :: t in r <==> t in counts || t in words)
    && (forall t :: t in r ==> r[t] == CountOf(counts, t) + (if t in words then 1 else 0))
  }

  lemma BumpedStep(counts: map<string, int>, done: set<string>, r: map<string, int>, w: string)
    requires Bumped(counts, done, r) && w !in done
    ensures Bumped(counts, done + {w}, r[w := CountOf(r, w) + 1])
  {
  }

  lemma BumpedIsBump(counts: map<string, int>, words: set<string>, r: map<string, int>)
    requires Bumped(counts, words, r)
    ensures r == Bump(counts, words)
  {
  }

  /** The smoothed ratio `(1 + num_docs) / (1 + count)` as a real. */
  function SmoothedRatio(numDocs: int, count: int): (r: real)
    requires count != -1
    ensures r * (1 + count) as real == (1 + numDocs) as real
    ensures numDocs >= 0 && count >= 0 ==> r > 0.0
  {
    (1 + numDocs) as real / (1 + count) as real
  }

  /** A larger count gives a strictly smaller ratio. */
  lemma RatioDecreases(numDocs: int, c1: int, c2: int)
    requires numDocs >= 0 && 0 <= c1 < c2
    ensures SmoothedRatio(numDocs, c1) > SmoothedRatio(numDocs, c2) > 0.0
  {
    var n := (1 + numDocs) as real;
    var a := (1 + c1) as real;
    var b := (1 + c2) as real;
    assert n / a - n / b == n * (b - a) / (a * b);
    assert n * (b - a) > 0.0;
  }

  /** A count between zero and the number of documents gives a ratio of at
      least one, and exactly one when every document contains the term. */
  lemma RatioAtLeastOne(numDocs: int, count: int)
    requires 0 <= count <= numDocs
    ensures SmoothedRatio(numDocs, count) >= 1.0
    ensures SmoothedRatio(numDocs, count) == 1.0 <==> count == numDocs
  {
    var n := (1 + numDocs) as real;
    var a := (1 + count) as real;
    var q := SmoothedRatio(numDocs, count);
    assert (q - 1.0) * a == n - a >= 0.0;
    ScaledSign(q - 1.0, a);
  }

  /** The sign of `x` is the sign of `x * a` for a positive `a`. */
  lemma ScaledSign(x: real, a: real)
    requires a > 0.0
    ensures x * a >= 0.0 ==> x >= 0.0
    ensures x * a == 0.0 <==> x == 0.0
  {
    if x < 0.0 {
      assert x * a < 0.0;
    }
  }

  /** The logarithm, only assumed to be strictly increasing on positive
      reals. */
  ghost predicate StrictlyIncreasing(ln: real -> real) {
    forall x, y :: 0.0 < x < y ==> ln(x) < ln(y)
  }

  /** The library's object: the corpus counts, the stopword list and the
      IDF returned for unknown terms. */
  class TfIdf {
    var numDocs: int
    var termNumDocs: map<string, int>
    var stopwords: seq<string>
    var idfDefault: real

    /** The empty state that `__init__` sets up before reading any file. */
    constructor (defaultIdf: real)
      ensures numDocs == 0 && termNumDocs == map[] && stopwords == [] && idfDefault == defaultIdf
    {
      numDocs := 0;
      termNumDocs := map[];
      stopwords := [];
      idfDefault := defaultIdf;
    }

    /** The counts as a value. */
    function Snapshot(): Corpus
      reads this
    {
      Corpus(numDocs, termNumDocs)
    }

    /** `TfIdf(corpus_filename, stopword_filename, DEFAULT_IDF)`, given the
        contents of the files that are named. The first corpus line is the
        document count, each further line a `term: count` assignment; a
        malformed corpus raises, modelled as `None`. The stopword list is
        the stopword file's lines, stripped. */
    static method Create(corpusText: Option<string>, stopwordText: Option<string>, defaultIdf: real)
      returns (r: Option<TfIdf>)
      ensures r.None? <==> corpusText.Some? && ParseCorpus(ReadLines(corpusText.value)).None?
      ensures r.Some? ==> fresh(r.value) && r.value.idfDefault == defaultIdf
      ensures r.Some? && corpusText.None? ==> r.value.numDocs == 0 && r.value.termNumDocs == map[]
      ensures r.Some? && corpusText.Some? ==>
        ParseCorpus(ReadLines(corpusText.value)) == Some(r.value.Snapshot())
      ensures r.Some? ==>
        r.value.stopwords == if stopwordText.None? then [] else ReadStopwords(stopwordText.value)
    {
      var t := new TfIdf(defaultIdf);
      if corpusText.Some? {
        var lines := ReadLines(corpusText.value);
        if lines == [] {
          return None;
        }
        var n := ParseInt(Strip(lines[0]));
        if n.None? {
          return None;
        }
        t.numDocs := n.value;
        var ok := t.LoadTerms(lines[1..]);
        if !ok {
          return None;
        }
        assert ParseCorpus(lines) == Some(t.Snapshot());
      }
      if stopwordText.Some? {
        t.stopwords := ReadStopwords(stopwordText.value);
      }
      return Some(t);
    }

    /** The loop of `__init__` over the term lines: each line assigns its
        term its count, a later line for the same term overwriting an earlier
        one, and a malformed line stops the load. */
    method LoadTerms(entryLines: seq<string>) returns (ok: bool)
      requires termNumDocs == map[]
      modifies this
      ensures ok <==> ParseEntries(entryLines).Some?
      ensures ok ==> ParseEntries(entryLines) == Some(termNumDocs)
      ensures numDocs == old(numDocs) && stopwords == old(stopwords) && idfDefault == old(idfDefault)
    {
      var i := 0;
      while i < |entryLines|
        invariant 0 <= i <= |entryLines|
        invariant ParseEntries(entryLines[..i]) == Some(termNumDocs)
        invariant numDocs == old(numDocs) && stopwords == old(stopwords) && idfDefault == old(idfDefault)
      {
        var entry := ParseEntry(entryLines[i]);
        if entry.None? {
          ParseEntriesFail(entryLines, i);
          return false;
        }
        ParseEntriesStep(entryLines, i, termNumDocs, entry.value);
        termNumDocs := termNumDocs[entry.value.0 := entry.value.1];
        i := i + 1;
      }
      assert entryLines[..i] == entryLines;
      return true;
    }

    /** `get_tokens`: the tokens of the lower-cased text, left to right. */
    function GetTokens(s: string): (r: seq<string>)
      ensures forall k :: 0 <= k < |r| ==> |r[k]| > 0 && IsLowerCase(r[k])
    {
      Tokens(s)
    }

    /** `add_input_document`: one more document, and each of its distinct
        tokens counted once more. */
    method AddInputDocument(input: string)
      modifies this
      ensures Snapshot() == Added(old(Snapshot()), input)
      ensures GetNumDocs() == old(GetNumDocs()) + 1
      ensures stopwords == old(stopwords) && idfDefault == old(idfDefault)
      ensures old(WellFormed(Snapshot())) ==> WellFormed(Snapshot())
    {
      numDocs := numDocs + 1;
      var words := TokenSet(input);
      CountWords(words);
      if old(WellFormed(Snapshot())) {
        AddedKeepsWellFormed(old(Snapshot()), input);
      }
    }

    /** The loop of `add_input_document` over the distinct tokens, in the
        set's iteration order: a known word's count goes up by one, a new
        word starts at one. */
    method CountWords(words: set<string>)
      modifies this
      ensures termNumDocs == Bump(old(termNumDocs), words)
      ensures numDocs == old(numDocs) && stopwords == old(stopwords) && idfDefault == old(idfDefault)
    {
      var left := words;
      while left != {}
        invariant left <= words
        invariant Bumped(old(termNumDocs), words - left, termNumDocs)
        invariant numDocs == old(numDocs)
        invariant stopwords == old(stopwords) && idfDefault == old(idfDefault)
        decreases left
      {
        var word :| word in left;
        ghost var done := words - left;
        BumpedStep(old(termNumDocs), done, termNumDocs, word);
        if word in termNumDocs {
          termNumDocs := termNumDocs[word := termNumDocs[word] + 1];
        } else {
          termNumDocs := termNumDocs[word := 1];
        }
        left := left - {word};
        assert words - left == done + {word};
      }
      assert words - left == words;
      BumpedIsBump(old(termNumDocs), words, termNumDocs);
    }

    /** `get_num_docs`: the number of documents in the corpus. */
    function GetNumDocs(): (n: int)
      reads this
      ensures n == Snapshot().numDocs
    {
      numDocs
    }

    /** `get_idf`: zero for a stopword, even one in the corpus; otherwise the
        default for a term missing from the corpus (the lookup is exact, so
        upper case does not match); otherwise `log((1 + num_docs) / (1 +
        count))`, which raises ZeroDivisionError for a count of -1 and a
        math domain error for a ratio that is not positive. */
    function GetIdf(term: string, ln: real -> real): (r: Result<real>)
      reads this
      ensures term in stopwords ==> r == Ok(0.0)
      ensures term !in stopwords && term !in termNumDocs ==> r == Ok(idfDefault)
      ensures r == Err(ZeroDivisionError) <==>
        term !in stopwords && term in termNumDocs && termNumDocs[term] == -1
      ensures r == Err(MathDomainError) <==>
        term !in stopwords && term in termNumDocs && termNumDocs[term] != -1 &&
        SmoothedRatio(numDocs, termNumDocs[term]) <= 0.0
      ensures r.Ok? && term !in stopwords && term in termNumDocs ==>
        termNumDocs[term] != -1 && r.value == ln(SmoothedRatio(numDocs, termNumDocs[term]))
    {
      if term in stopwords then Ok(0.0)
      else if term !in termNumDocs then Ok(idfDefault)
      else if 1 + termNumDocs[term] == 0 then Err(ZeroDivisionError)
      else
        var ratio := SmoothedRatio(GetNumDocs(), termNumDocs[term]);
        if ratio <= 0.0 then Err(MathDomainError) else Ok(ln(ratio))
    }

    /** `get_doc_keywords`: every distinct token of the document once, with
        its term frequency times its IDF, by non-increasing score; an IDF
        error stops the loop and is passed on. */
    method GetDocKeywords(doc: string, ln: real -> real) returns (r: Result<seq<(string, real)>>)
      ensures r.Err? ==> exists w :: w in Tokens(doc) && GetIdf(w, ln) == Err(r.error)
      ensures (exists w :: w in Tokens(doc) && GetIdf(w, ln).Err?) ==> r.Err?
      ensures r.Ok? ==> multiset(Terms(r.value)) == multiset(TokenSet(doc))
      ensures r.Ok? ==> forall e :: e in r.value ==> Scored(Tokens(doc), e, ln)
      ensures r.Ok? ==> SortedDesc(r.value)
      ensures Tokens(doc) == [] ==> r == Ok([])
    {
      var tokens := GetTokens(doc);
      var scores := ScoreTokens(tokens, ln);
      if scores.Err? {
        return Err(scores.error);
      }
      var sorted := SortDesc(scores.value);
      PermutedMembers(sorted, scores.value);
      return Ok(sorted);
    }

    /** The loop of `get_doc_keywords` over the distinct tokens, in the
        set's iteration order: each is scored once, and the first IDF error
        is passed on. */
    method ScoreTokens(tokens: seq<string>, ln: real -> real) returns (r: Result<seq<(string, real)>>)
      ensures r.Err? ==> exists w :: w in tokens && GetIdf(w, ln) == Err(r.error)
      ensures (exists w :: w in tokens && GetIdf(w, ln).Err?) ==> r.Err?
      ensures r.Ok? ==> multiset(Terms(r.value)) == multiset(Distinct(tokens))
      ensures r.Ok? ==> forall e :: e in r.value ==> Scored(tokens, e, ln)
    {
      var tokenSet := Distinct(tokens);
      var items: seq<(string, real)> := [];
      var left := tokenSet;
      while left != {}
        invariant left <= tokenSet
        invariant multiset(Terms(items)) == multiset(tokenSet - left)
        invariant forall e :: e in items ==> Scored(tokens, e, ln)
        decreases left
      {
        var word :| word in left;
        var entry := ScoreWord(tokens, tokenSet, word, ln);
        if entry.Err? {
          return Err(entry.error);
        }
        ghost var done := tokenSet - left;
        TermsSnoc(items, entry.value);
        MultisetAddFresh(done, word);
        items := items + [entry.value];
        left := left - {word};
        assert tokenSet - left == done + {word};
      }
      assert tokenSet - left == tokenSet;
      ScoredCoversTokens(tokens, items, ln);
      return Ok(items);
    }

    /** One round of the loop of `get_doc_keywords`: the token's term
        frequency times its IDF, or the IDF's error. */
    method ScoreWord(tokens: seq<string>, tokenSet: set<string>, word: string, ln: real -> real)
      returns (r: Result<(string, real)>)
      requires tokenSet == Distinct(tokens) && word in tokenSet
      ensures r.Err? ==> GetIdf(word, ln) == Err(r.error)
      ensures r.Ok? ==> r.value.0 == word && Scored(tokens, r.value, ln)
    {
      var tf := multiset(tokens)[word] as real / |tokenSet| as real;
      var idf := GetIdf(word, ln);
      if idf.Err? {
        return Err(idf.error);
      }
      return Ok((word, tf * idf.value));
    }

    /** A scored listing of all distinct tokens means no token's IDF fails. */
    lemma ScoredCoversTokens(tokens: seq<string>, items: seq<(string, real)>, ln: real -> real)
      requires forall e :: e in items ==> Scored(tokens, e, ln)
      requires multiset(Terms(items)) == multiset(Distinct(tokens))
      ensures forall w :: w in tokens ==> GetIdf(w, ln).Ok?
    {
      forall w | w in tokens ensures GetIdf(w, ln).Ok? {
        assert w in multiset(Terms(items)) by {
          assert w in Distinct(tokens);
        }
        var k :| 0 <= k < |Terms(items)| && Terms(items)[k] == w;
        assert items[k] in items;
      }
    }

    /** An entry of the keyword list: the token's term frequency among the
        distinct tokens, times its IDF. */
    ghost predicate Scored(tokens: seq<string>, e: (string, real), ln: real -> real)
      reads this
    {
      e.0 in tokens && GetIdf(e.0, ln).Ok? &&
      e.1 == Tf(tokens, e.0) * GetIdf(e.0, ln).value
    }

    /** `save_corpus_to_file`: the corpus lines, and the stopword lines: the
        terms by non-increasing count, up to the first whose count is below
        `threshold * num_docs`. `order` is the dictionary order the lines
        follow. */
    method SaveCorpus(threshold: real) returns (corpusLines: seq<string>, stopwordLines: seq<string>, ghost order: seq<string>)
      ensures multiset(order) == multiset(termNumDocs.Keys)
      ensures forall k :: 0 <= k < |order| ==> order[k] in termNumDocs
      ensures corpusLines == CorpusLines(Snapshot(), order)
      ensures AllStorable(termNumDocs) ==>
        ParseCorpus(ReadLines(Unlines(corpusLines))) == Some(Snapshot())
      ensures forall w :: w in stopwordLines <==>
        w in termNumDocs && termNumDocs[w] as real >= StopwordBound(threshold, numDocs)
      ensures forall i, j :: 0 <= i < j < |stopwordLines| ==> stopwordLines[i] != stopwordLines[j]
      ensures forall i, j :: 0 <= i < j < |stopwordLines| ==>
        stopwordLines[i] in termNumDocs && stopwordLines[j] in termNumDocs &&
        termNumDocs[stopwordLines[i]] >= termNumDocs[stopwordLines[j]]
      ensures AllStorable(termNumDocs) ==> ReadStopwords(Unlines(stopwordLines)) == stopwordLines
    {
      var items;
      corpusLines, items, order := WriteCorpus();
      OrderCoversKeys(order, termNumDocs);
      if AllStorable(termNumDocs) {
        CorpusFileRoundTrip(Snapshot(), order);
      }
      var sorted := SortDesc(items);
      var bound := StopwordBound(threshold, numDocs);
      stopwordLines := CutCandidates(sorted, bound);
      var counts := termNumDocs;
      assert forall w :: w in stopwordLines <==> w in counts && counts[w] as real >= bound by {
        CandidatesAreFrequent(counts, items, stopwordLines, sorted, bound);
      }
      assert forall i, j :: 0 <= i < j < |stopwordLines| ==> stopwordLines[i] != stopwordLines[j] by {
        CandidatesAreDistinct(counts, items, stopwordLines, sorted, bound);
      }
      assert forall i, j :: 0 <= i < j < |stopwordLines| ==>
        stopwordLines[i] in counts && stopwordLines[j] in counts &&
        counts[stopwordLines[i]] >= counts[stopwordLines[j]] by {
        CandidatesByCount(counts, items, stopwordLines, sorted, bound);
      }
      if AllStorable(termNumDocs) {
        StoredStopwords(termNumDocs, stopwordLines);
      }
    }

    /** The first loop of `save_corpus_to_file`: the document count line,
        then one `term: count` line per term in dictionary order, which is
        also the order of the `(term, count)` items handed to the sort. */
    method WriteCorpus() returns (corpusLines: seq<string>, items: seq<(string, real)>, ghost order: seq<string>)
      ensures multiset(order) == multiset(termNumDocs.Keys)
      ensures forall k :: 0 <= k < |order| ==> order[k] in termNumDocs
      ensures corpusLines == CorpusLines(Snapshot(), order)
      ensures Terms(items) == order && CountItems(termNumDocs, items)
    {
      corpusLines := [IntToString(numDocs)];
      order := [];
      items := [];
      var left := termNumDocs.Keys;
      while left != {}
        invariant left <= termNumDocs.Keys
        invariant multiset(order) == multiset(termNumDocs.Keys - left)
        invariant forall t :: t in order ==> t in termNumDocs
        invariant corpusLines == CorpusLines(Snapshot(), order)
        invariant Terms(items) == order
        invariant CountItems(termNumDocs, items)
        decreases left
      {
        var term :| term in left;
        ghost var done := termNumDocs.Keys - left;
        MultisetAddFresh(done, term);
        TermsSnoc(items, (term, termNumDocs[term] as real));
        CorpusLinesSnoc(Snapshot(), order, term);
        corpusLines := corpusLines + [EntryLine(term, termNumDocs[term])];
        items := items + [(term, termNumDocs[term] as real)];
        order := order + [term];
        left := left - {term};
        assert termNumDocs.Keys - left == done + {term};
      }
      assert termNumDocs.Keys - left == termNumDocs.Keys;
    }
  }

  /** The second loop of `save_corpus_to_file`: the terms of the sorted
      items up to the first whose score is below `bound`. */
  method CutCandidates(sorted: seq<(string, real)>, bound: real) returns (stops: seq<string>)
    ensures stops == Prefix(sorted, CandidatePrefix(sorted, bound))
  {
    stops := [];
    var i := 0;
    while i < |sorted|
      invariant 0 <= i <= |sorted|
      invariant forall k :: 0 <= k < i ==> sorted[k].1 >= bound
      invariant stops == Prefix(sorted, i)
    {
      if sorted[i].1 < bound {
        break;
      }
      stops := stops + [sorted[i].0];
      i := i + 1;
    }
    assert i == CandidatePrefix(sorted, bound);
  }

  /** For a fixed number of documents, a term in more documents gets a
      strictly smaller IDF. */
  lemma IdfDecreasesWithCount(t: TfIdf, w1: string, w2: string, ln: real -> real)
    requires StrictlyIncreasing(ln) && t.numDocs >= 0
    requires w1 !in t.stopwords && w2 !in t.stopwords
    requires w1 in t.termNumDocs && w2 in t.termNumDocs
    requires 0 <= t.termNumDocs[w1] < t.termNumDocs[w2]
    ensures t.GetIdf(w1, ln).Ok? && t.GetIdf(w2, ln).Ok?
    ensures t.GetIdf(w1, ln).value > t.GetIdf(w2, ln).value
  {
    RatioDecreases(t.numDocs, t.termNumDocs[w1], t.termNumDocs[w2]);
  }

  /** In a corpus built from documents the IDF of a stored term never fails,
      is never negative, and is zero exactly when every document contains
      the term. */
  lemma IdfOfWellFormed(t: TfIdf, w: string, ln: real -> real)
    requires WellFormed(t.Snapshot()) && StrictlyIncreasing(ln) && ln(1.0) == 0.0
    requires w !in t.stopwords && w in t.termNumDocs
    ensures t.GetIdf(w, ln).Ok? && t.GetIdf(w, ln).value >= 0.0
    ensures t.GetIdf(w, ln).value == 0.0 <==> t.termNumDocs[w] == t.numDocs
  {
    var count := t.termNumDocs[w];
    RatioAtLeastOne(t.numDocs, count);
    var ratio := SmoothedRatio(t.numDocs, count);
    if ratio > 1.0 {
      assert ln(1.0) < ln(ratio);
    }
  }

  /** Only lower-case terms are stored, and the lookup is exact, so a term
      with an upper-case letter gets the default IDF unless it is a
      stopword. */
  lemma UpperCaseGetsDefault(t: TfIdf, term: string, ln: real -> real)
    requires LowerCaseKeys(t.termNumDocs)
    requires !IsLowerCase(term) && term !in t.stopwords
    ensures t.GetIdf(term, ln) == Ok(t.idfDefault)
  {
  }

  /** `float(tokens.count(word)) / len(tokens_set)`. */
  function Tf(tokens: seq<string>, w: string): (r: real)
    requires w in tokens
    ensures r > 0.0
    ensures r * |Distinct(tokens)| as real == multiset(tokens)[w] as real
  {
    assert w in Distinct(tokens);
    multiset(tokens)[w] as real / |Distinct(tokens)| as real
  }

  /** `STOPWORD_PERCENTAGE_THRESHOLD * self.num_docs`: the count a term
      needs to be a stopword candidate. */
  function StopwordBound(threshold: real, numDocs: int): (r: real)
    ensures 0.0 <= threshold && 0 <= numDocs ==> 0.0 <= r
    ensures 0.0 <= threshold <= 1.0 && 0 <= numDocs ==> r <= numDocs as real
  {
    threshold * numDocs as real
  }

  /** Every term of the corpus survives the file format. */
  ghost predicate AllStorable(counts: map<string, int>) {
    forall t :: t in counts ==> Storable(t)
  }

  /** The `(term, count)` items of the dictionary, counts as reals. */
  ghost predicate CountItems(counts: map<string, int>, items: seq<(string, real)>) {
    forall e :: e in items ==> e.0 in counts && e.1 == counts[e.0] as real
  }

  /** The keys of the first `n` entries. */
  function Prefix(s: seq<(string, real)>, n: nat): (r: seq<string>)
    requires n <= |s|
    ensures |r| == n && forall k :: 0 <= k < n ==> r[k] == s[k].0
  {
    seq(n, k requires 0 <= k < n => s[k].0)
  }

  lemma CorpusLinesSnoc(c: Corpus, order: seq<string>, t: string)
    requires forall k :: 0 <= k < |order| ==> order[k] in c.termNumDocs
    requires t in c.termNumDocs
    ensures CorpusLines(c, order + [t]) == CorpusLines(c, order) + [EntryLine(t, c.termNumDocs[t])]
  {
    assert EntryLines(c.termNumDocs, order + [t]) ==
      EntryLines(c.termNumDocs, order) + [EntryLine(t, c.termNumDocs[t])];
  }

  /** A listing whose multiset is that of the keys names every key. */
  lemma OrderCoversKeys(order: seq<string>, counts: map<string, int>)
    requires multiset(order) == multiset(counts.Keys)
    ensures forall t :: t in counts ==> t in order
  {
    forall t | t in counts ensures t in order {
      assert t in multiset(counts.Keys);
    }
  }

  /** The stopword candidates cut from the sorted items are exactly the
      terms whose count reaches the bound. */
  lemma CandidatesAreFrequent(counts: map<string, int>, items: seq<(string, real)>, stops: seq<string>,
                              sorted: seq<(string, real)>, bound: real)
    requires multiset(Terms(items)) == multiset(counts.Keys)
    requires CountItems(counts, items)
    requires SortedDesc(sorted) && multiset(sorted) == multiset(items)
    requires multiset(Terms(sorted)) == multiset(Terms(items))
    requires stops == Prefix(sorted, CandidatePrefix(sorted, bound))
    ensures forall w :: w in stops <==> w in counts && counts[w] as real >= bound
  {
    SortedPrefixIsFilter(sorted, bound);
    SortedCountItems(counts, items, sorted);
    forall w | w in counts && counts[w] as real >= bound ensures w in stops {
      FrequentIsCandidate(counts, stops, sorted, bound, w);
    }
  }

  lemma FrequentIsCandidate(counts: map<string, int>, stops: seq<string>,
                            sorted: seq<(string, real)>, bound: real, w: string)
    requires multiset(Terms(sorted)) == multiset(counts.Keys)
    requires CountItems(counts, sorted)
    requires forall i :: 0 <= i < |sorted| ==> (i < CandidatePrefix(sorted, bound) <==> sorted[i].1 >= bound)
    requires stops == Prefix(sorted, CandidatePrefix(sorted, bound))
    requires w in counts && counts[w] as real >= bound
    ensures w in stops
  {
    assert w in multiset(Terms(sorted)) by {
      assert w in multiset(counts.Keys);
    }
    var k :| 0 <= k < |Terms(sorted)| && Terms(sorted)[k] == w;
    assert sorted[k] in sorted;
    assert stops[k] == w;
  }

  lemma SortedCountItems(counts: map<string, int>, items: seq<(string, real)>, sorted: seq<(string, real)>)
    requires CountItems(counts, items) && multiset(sorted) == multiset(items)
    ensures CountItems(counts, sorted)
  {
    PermutedMembers(sorted, items);
  }

  /** No term is emitted twice. */
  lemma CandidatesAreDistinct(counts: map<string, int>, items: seq<(string, real)>, stops: seq<string>,
                              sorted: seq<(string, real)>, bound: real)
    requires multiset(Terms(items)) == multiset(counts.Keys)
    requires multiset(Terms(sorted)) == multiset(Terms(items))
    requires stops == Prefix(sorted, CandidatePrefix(sorted, bound))
    ensures forall i, j :: 0 <= i < j < |stops| ==> stops[i] != stops[j]
  {
    DistinctWhenOnce(Terms(sorted));
    forall i, j | 0 <= i < j < |stops| ensures stops[i] != stops[j] {
    }
  }

  /** The emitted terms come by non-increasing count. */
  lemma CandidatesByCount(counts: map<string, int>, items: seq<(string, real)>, stops: seq<string>,
                          sorted: seq<(string, real)>, bound: real)
    requires CountItems(counts, items)
    requires SortedDesc(sorted) && multiset(sorted) == multiset(items)
    requires stops == Prefix(sorted, CandidatePrefix(sorted, bound))
    ensures forall i, j :: 0 <= i < j < |stops| ==>
      stops[i] in counts && stops[j] in counts && counts[stops[i]] >= counts[stops[j]]
  {
    SortedCountItems(counts, items, sorted);
    forall i, j | 0 <= i < j < |stops|
      ensures stops[i] in counts && stops[j] in counts && counts[stops[i]] >= counts[stops[j]]
    {
      assert sorted[i] in sorted && sorted[j] in sorted;
      assert sorted[i].1 >= sorted[j].1;
    }
  }

  /** Stopwords drawn from storable corpus terms survive the file format. */
  lemma StoredStopwords(counts: map<string, int>, stops: seq<string>)
    requires AllStorable(counts)
    requires forall w :: w in stops ==> w in counts
    ensures ReadStopwords(Unlines(stops)) == stops
  {
    forall k | 0 <= k < |stops| ensures Storable(stops[k]) {
      assert stops[k] in stops;
    }
    StopwordFileRoundTrip(stops);
  }
}
