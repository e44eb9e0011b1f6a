/** Ordering of scored terms: `sorted(items, key=itemgetter(1), reverse=True)`
    and the frequency cut-off applied to a sorted list of stopword candidates. */
module Ranking {

  /** The keys of a list of `(key, score)` pairs, in order. */
  function Terms<K>(s: seq<(K, real)>): (r: seq<K>)
    ensures |r| == |s|
    ensures forall k :: 0 <= k < |r| ==> r[k] == s[k].0
  {
    if s == [] then [] else [s[0].0] + Terms(s[1..])
  }

  lemma {:induction false} TermsSnoc<K>(s: seq<(K, real)>, x: (K, real))
    ensures Terms(s + [x]) == Terms(s) + [x.0]
  {
    if s != [] {
      assert (s + [x])[1..] == s[1..] + [x];
      TermsSnoc(s[1..], x);
    }
  }

  /** Non-increasing by score. */
  predicate SortedDesc<K>(s: seq<(K, real)>) {
    forall i, j :: 0 <= i < j < |s| ==> s[i].1 >= s[j].1
  }

  /** Put `x` into a sorted list ahead of the first entry with a lower score. */
  function Insert<K>(x: (K, real), s: seq<(K, real)>): (r: seq<(K, real)>)
    requires SortedDesc(s)
    ensures SortedDesc(r)
    ensures multiset(r) == multiset(s) + multiset{x}
    ensures multiset(Terms(r)) == multiset(Terms(s)) + multiset{x.0}
  {
    if s == [] || x.1 >= s[0].1 then
      HeadTerms(x, s);
      [x] + s
    else
      var rest := Insert(x, s[1..]);
      InsertBehind(x, s, rest);
      [s[0]] + rest
  }

  /** `x` goes behind the head of `s` when it scores lower. */
  lemma InsertBehind<K>(x: (K, real), s: seq<(K, real)>, rest: seq<(K, real)>)
    requires SortedDesc(s) && s != [] && x.1 < s[0].1
    requires SortedDesc(rest)
    requires multiset(rest) == multiset(s[1..]) + multiset{x}
    requires multiset(Terms(rest)) == multiset(Terms(s[1..])) + multiset{x.0}
    ensures SortedDesc([s[0]] + rest)
    ensures multiset([s[0]] + rest) == multiset(s) + multiset{x}
    ensures multiset(Terms([s[0]] + rest)) == multiset(Terms(s)) + multiset{x.0}
  {
    HeadStaysSorted(x, s, rest);
    ConsMultisets(s, x, rest);
    ConsTermMultisets(s, x, rest);
  }

  lemma ConsMultisets<K>(s: seq<(K, real)>, x: (K, real), rest: seq<(K, real)>)
    requires s != []
    requires multiset(rest) == multiset(s[1..]) + multiset{x}
    ensures multiset([s[0]] + rest) == multiset(s) + multiset{x}
  {
    assert s == [s[0]] + s[1..];
  }

  lemma ConsTermMultisets<K>(s: seq<(K, real)>, x: (K, real), rest: seq<(K, real)>)
    requires s != []
    requires multiset(Terms(rest)) == multiset(Terms(s[1..])) + multiset{x.0}
    ensures multiset(Terms([s[0]] + rest)) == multiset(Terms(s)) + multiset{x.0}
  {
    HeadTerms(s[0], rest);
  }

  lemma HeadStaysSorted<K>(x: (K, real), s: seq<(K, real)>, rest: seq<(K, real)>)
    requires SortedDesc(s) && s != [] && x.1 < s[0].1
    requires SortedDesc(rest)
    requires multiset(rest) == multiset(s[1..]) + multiset{x}
    ensures SortedDesc([s[0]] + rest)
  {
    var r := [s[0]] + rest;
    forall j | 0 < j < |r| ensures r[0].1 >= r[j].1 {
      assert r[j] == rest[j - 1];
      InsertedFrom(rest, s[1..], x, r[j]);
    }
  }

  lemma HeadTerms<K>(a: (K, real), s: seq<(K, real)>)
    ensures Terms([a] + s) == [a.0] + Terms(s)
  {
    assert ([a] + s)[1..] == s;
  }

  /** An entry of `r` when `multiset(r) == multiset(s) + multiset{x}` comes
      from `s` or is `x`. */
  lemma InsertedFrom<K>(r: seq<(K, real)>, s: seq<(K, real)>, x: (K, real), e: (K, real))
    requires multiset(r) == multiset(s) + multiset{x}
    requires e in r
    ensures e in s || e == x
  {
    assert e in multiset(r);
  }

  /** Descending sort: a sorted permutation of the input. Equal scores keep
      their input order, as Python's stable sort does. */
  function SortDesc<K>(s: seq<(K, real)>): (r: seq<(K, real)>)
    ensures SortedDesc(r)
    ensures multiset(r) == multiset(s)
    ensures multiset(Terms(r)) == multiset(Terms(s))
  {
    if s == [] then []
    else
      assert s == [s[0]] + s[1..];
      Insert(s[0], SortDesc(s[1..]))
  }

  /** How many leading entries of `s` reach `bound`: the loop in
      `save_corpus_to_file` stops at the first entry whose score is below it. */
  function CandidatePrefix<K>(s: seq<(K, real)>, bound: real): (k: nat)
    ensures k <= |s|
    ensures forall i :: 0 <= i < k ==> s[i].1 >= bound
    ensures k < |s| ==> s[k].1 < bound
  {
    if s == [] || s[0].1 < bound then 0 else 1 + CandidatePrefix(s[1..], bound)
  }

  /** On a sorted list the prefix rule selects exactly the entries that reach
      the bound: the cut-off is a filter. */
  lemma SortedPrefixIsFilter<K>(s: seq<(K, real)>, bound: real)
    requires SortedDesc(s)
    ensures forall i :: 0 <= i < |s| ==> (i < CandidatePrefix(s, bound) <==> s[i].1 >= bound)
  {
    var k := CandidatePrefix(s, bound);
    forall i | k <= i < |s| ensures s[i].1 < bound {
      assert s[k].1 >= s[i].1;
    }
  }

  lemma RepeatCountsTwice<K>(s: seq<K>, i: nat, j: nat)
    requires i < j < |s|
    ensures s[i] == s[j] ==> multiset(s)[s[i]] >= 2
  {
    assert s == s[..i] + [s[i]] + s[i + 1..j] + [s[j]] + s[j + 1..];
  }

  /** A list in which no key occurs twice has pairwise distinct keys. */
  lemma DistinctWhenOnce<K>(s: seq<K>)
    requires forall x :: multiset(s)[x] <= 1
    ensures forall i, j :: 0 <= i < j < |s| ==> s[i] != s[j]
  {
    forall i, j | 0 <= i < j < |s| ensures s[i] != s[j] {
      RepeatCountsTwice(s, i, j);
    }
  }

  /** Taking one more element out of a set into a listing of it. */
  lemma MultisetAddFresh<K>(done: set<K>, x: K)
    requires x !in done
    ensures multiset(done + {x}) == multiset(done) + multiset{x}
  {
    forall y ensures multiset(done + {x})[y] == (multiset(done) + multiset{x})[y] {
      if y == x {
        assert y in done + {x};
      }
    }
  }

  /** A permutation has the same members. */
  lemma PermutedMembers<K>(r: seq<(K, real)>, s: seq<(K, real)>)
    requires multiset(r) == multiset(s)
    ensures forall e :: e in r <==> e in s
  {
    forall e ensures e in r <==> e in s {
      assert e in r <==> e in multiset(r);
      assert e in s <==> e in multiset(s);
    }
  }
}
