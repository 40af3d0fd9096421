/**
 * `searchRelevantLaws`: score every clause of the knowledge base against a
 * clause text, sort by score (highest first, ties in knowledge-base order),
 * keep the positive scores and return the clauses of the first `limit`.
 * `Retrieve` is the specification; the lemmas below say what it guarantees
 * and `SearchRelevantLaws` computes it against the cached knowledge base.
 */
module Retrieval {
  import opened Wrappers
  import opened LawKnowledge
  import opened Scoring
  import opened Ranking

  /**
   * `lawKB.map(law => ({ law, score: score(law) }))`: every entry carries
   * the score of its own clause, and the clauses are the knowledge base in
   * order.
   */
  function ScoreAll(score: Clause -> real, kb: seq<Clause>): (r: seq<ScoredLaw>)
    ensures Faithful(score, r)
    ensures Laws(r) == kb
  {
    seq(|kb|, k requires 0 <= k < |kb| => ScoredLaw(kb[k], score(kb[k])))
  }

  /** `.filter(item => item.score > 0)`. */
  function Positive(s: seq<ScoredLaw>): (r: seq<ScoredLaw>)
    ensures |r| <= |s|
  {
    if s == [] then []
    else (if s[0].score > 0.0 then [s[0]] else []) + Positive(s[1..])
  }

  /** The filter keeps the entries with a positive score and no others. */
  lemma {:induction false} PositiveIsFilter(s: seq<ScoredLaw>)
    ensures forall x :: x in Positive(s) <==> x in s && x.score > 0.0
  {
    if s != [] {
      PositiveIsFilter(s[1..]);
      assert s == [s[0]] + s[1..];
    }
  }

  /** `.slice(0, limit)`: the first `limit` elements, or all of them when there are fewer. */
  function Take<T>(s: seq<T>, limit: nat): (r: seq<T>)
    ensures r <= s
    ensures |r| == if |s| <= limit then |s| else limit
  {
    if |s| <= limit then s else s[..limit]
  }

  /** `.map(item => item.law)`: one clause per entry, in order. */
  function Laws(s: seq<ScoredLaw>): (r: seq<Clause>)
    ensures |r| == |s|
    ensures forall k :: 0 <= k < |s| ==> r[k] == s[k].law
  {
    seq(|s|, k requires 0 <= k < |s| => s[k].law)
  }

  /** The clauses of `cs` that score `v`, in their order in `cs`. */
  function ClausesScoring(score: Clause -> real, cs: seq<Clause>, v: real): seq<Clause> {
    if cs == [] then []
    else (if score(cs[0]) == v then [cs[0]] else []) + ClausesScoring(score, cs[1..], v)
  }

  /**
   * The ranking pipeline of `searchRelevantLaws` for any scoring of the
   * clauses: score, stable sort highest first, keep positives, cut at `limit`.
   */
  function TopBy(score: Clause -> real, kb: seq<Clause>, limit: nat): (r: seq<Clause>)
    ensures |r| <= limit && |r| <= |kb|
  {
    var sorted := SortDesc(ScoreAll(score, kb));
    assert |sorted| == |multiset(sorted)| == |kb|;
    Laws(Take(Positive(sorted), limit))
  }

  /** The relevance of each clause to `text`, as a scoring. */
  function RelevanceTo(text: string): Clause -> real {
    law => Relevance(text, law)
  }

  /**
   * What `searchRelevantLaws(text, limit)` returns over a loaded, non-empty
   * knowledge base `kb`: never more than `limit` clauses, and never more
   * than the knowledge base holds.
   */
  function Retrieve(text: string, kb: seq<Clause>, limit: nat): (r: seq<Clause>)
    ensures |r| <= limit && |r| <= |kb|
  {
    TopBy(RelevanceTo(text), kb, limit)
  }

  /** Every entry carries the score of its own clause. */
  ghost predicate Faithful(score: Clause -> real, s: seq<ScoredLaw>) {
    forall k :: 0 <= k < |s| ==> s[k].score == score(s[k].law)
  }

  /** On a sorted sequence the positive entries are exactly a prefix. */
  lemma {:induction false} PositiveIsPrefix(s: seq<ScoredLaw>) returns (m: nat)
    requires NonIncreasing(s)
    ensures m <= |s| && Positive(s) == s[..m]
    ensures forall k :: 0 <= k < m ==> s[k].score > 0.0
    ensures forall k :: m <= k < |s| ==> s[k].score <= 0.0
  {
    if s == [] {
      m := 0;
    } else {
      assert NonIncreasing(s[1..]) by {
        forall i, j | 0 <= i < j < |s[1..]| ensures s[1..][i].score >= s[1..][j].score {
          assert s[1..][i] == s[i + 1] && s[1..][j] == s[j + 1];
        }
      }
      var m' := PositiveIsPrefix(s[1..]);
      if s[0].score > 0.0 {
        m := m' + 1;
        assert s[..m] == [s[0]] + s[1..][..m'];
        forall k | m <= k < |s| ensures s[k].score <= 0.0 {
          assert s[k] == s[1..][k - 1];
        }
        forall k | 0 <= k < m ensures s[k].score > 0.0 {
          if k > 0 {
            assert s[k] == s[1..][k - 1];
          }
        }
      } else {
        m := 0;
        assert m' == 0;
      }
    }
  }

  /** Sorting the scored clauses keeps every entry faithful. */
  lemma SortedFaithful(score: Clause -> real, kb: seq<Clause>)
    ensures Faithful(score, SortDesc(ScoreAll(score, kb)))
    ensures multiset(SortDesc(ScoreAll(score, kb))) == multiset(ScoreAll(score, kb))
  {
    var all := ScoreAll(score, kb);
    var sorted := SortDesc(all);
    forall k | 0 <= k < |sorted| ensures sorted[k].score == score(sorted[k].law) {
      assert sorted[k] in multiset(all);
    }
  }

  /**
   * The result is the clause list of the first `n` sorted entries, all
   * positive, where `n` is the limit unless the positive entries run out
   * first.
   */
  lemma TopPrefix(score: Clause -> real, kb: seq<Clause>, limit: nat) returns (n: nat)
    ensures n <= limit && n <= |SortDesc(ScoreAll(score, kb))|
    ensures TopBy(score, kb, limit) == Laws(SortDesc(ScoreAll(score, kb))[..n])
    ensures forall k :: 0 <= k < n ==> SortDesc(ScoreAll(score, kb))[k].score > 0.0
    ensures n < limit ==>
      forall k :: n <= k < |SortDesc(ScoreAll(score, kb))| ==> SortDesc(ScoreAll(score, kb))[k].score <= 0.0
  {
    var sorted := SortDesc(ScoreAll(score, kb));
    var m := PositiveIsPrefix(sorted);
    n := if m <= limit then m else limit;
    assert Take(Positive(sorted), limit) == sorted[..n];
  }

  /** `Laws` distributes over concatenation. */
  lemma LawsAppend(a: seq<ScoredLaw>, b: seq<ScoredLaw>)
    ensures Laws(a + b) == Laws(a) + Laws(b)
  {
  }

  /** Read through `Laws`, the entries tied at `v` are the clauses scoring `v`. */
  lemma {:induction false} LawsTies(score: Clause -> real, s: seq<ScoredLaw>, v: real)
    requires Faithful(score, s)
    ensures Laws(Ties(s, v)) == ClausesScoring(score, Laws(s), v)
  {
    if s != [] {
      assert Faithful(score, s[1..]) by {
        forall k | 0 <= k < |s[1..]| ensures s[1..][k].score == score(s[1..][k].law) {
          assert s[1..][k] == s[k + 1];
        }
      }
      LawsTies(score, s[1..], v);
      LawsAppend(if s[0].score == v then [s[0]] else [], Ties(s[1..], v));
      assert Laws(s)[0] == s[0].law && Laws(s)[1..] == Laws(s[1..]);
    }
  }

  /** At most `limit` clauses come back, each from the knowledge base and each with positive relevance. */
  lemma TopBounded(score: Clause -> real, kb: seq<Clause>, limit: nat)
    ensures |TopBy(score, kb, limit)| <= limit
    ensures forall k :: 0 <= k < |TopBy(score, kb, limit)| ==>
      TopBy(score, kb, limit)[k] in kb && score(TopBy(score, kb, limit)[k]) > 0.0
  {
    var sorted := SortDesc(ScoreAll(score, kb));
    var n := TopPrefix(score, kb, limit);
    SortedFaithful(score, kb);
    var r := TopBy(score, kb, limit);
    forall k | 0 <= k < |r| ensures r[k] in kb && score(r[k]) > 0.0 {
      assert r[k] == sorted[k].law;
      assert sorted[k] in multiset(ScoreAll(score, kb));
    }
  }

  /** The clauses come back highest relevance first. */
  lemma TopOrdered(score: Clause -> real, kb: seq<Clause>, limit: nat)
    ensures forall i, j :: 0 <= i < j < |TopBy(score, kb, limit)| ==>
      score(TopBy(score, kb, limit)[i]) >= score(TopBy(score, kb, limit)[j])
  {
    var sorted := SortDesc(ScoreAll(score, kb));
    var n := TopPrefix(score, kb, limit);
    SortedFaithful(score, kb);
    var r := TopBy(score, kb, limit);
    forall i, j | 0 <= i < j < |r| ensures score(r[i]) >= score(r[j]) {
      assert r[i] == sorted[i].law && r[j] == sorted[j].law;
    }
  }

  /** Each clause of the knowledge base sits somewhere in the sorted scores, with its own score. */
  lemma SortedPosition(score: Clause -> real, kb: seq<Clause>, c: Clause) returns (q: nat)
    requires c in kb
    ensures q < |SortDesc(ScoreAll(score, kb))|
    ensures SortDesc(ScoreAll(score, kb))[q] == ScoredLaw(c, score(c))
  {
    var all := ScoreAll(score, kb);
    var i :| 0 <= i < |kb| && kb[i] == c;
    assert all[i] == ScoredLaw(c, score(c));
    assert all[i] in multiset(SortDesc(all));
    q :| 0 <= q < |SortDesc(all)| && SortDesc(all)[q] == all[i];
  }

  /** Below the limit, every clause with positive relevance is returned. */
  lemma TopComplete(score: Clause -> real, kb: seq<Clause>, limit: nat)
    ensures |TopBy(score, kb, limit)| < limit ==>
      forall c :: c in kb && score(c) > 0.0 ==> c in TopBy(score, kb, limit)
  {
    var sorted := SortDesc(ScoreAll(score, kb));
    var n := TopPrefix(score, kb, limit);
    var r := TopBy(score, kb, limit);
    if |r| < limit {
      forall c | c in kb && score(c) > 0.0 ensures c in r {
        var q := SortedPosition(score, kb, c);
        assert q < n;
        assert r[q] == c;
      }
    }
  }

  /** No clause left out is more relevant than one returned. */
  lemma TopCutoff(score: Clause -> real, kb: seq<Clause>, limit: nat)
    ensures forall c, k :: c in kb && c !in TopBy(score, kb, limit) && 0 <= k < |TopBy(score, kb, limit)| ==>
      score(c) <= score(TopBy(score, kb, limit)[k])
  {
    var sorted := SortDesc(ScoreAll(score, kb));
    var n := TopPrefix(score, kb, limit);
    SortedFaithful(score, kb);
    var r := TopBy(score, kb, limit);
    forall c, k | c in kb && c !in r && 0 <= k < |r| ensures score(c) <= score(r[k]) {
      var q := SortedPosition(score, kb, c);
      assert n <= q by {
        assert forall p :: 0 <= p < n ==> r[p] == sorted[p].law;
      }
      assert r[k] == sorted[k].law;
    }
  }

  /** A prefix of a faithful sequence is faithful. */
  lemma FaithfulPrefix(score: Clause -> real, s: seq<ScoredLaw>, n: nat)
    requires n <= |s| && Faithful(score, s)
    ensures Faithful(score, s[..n])
  {
    forall k | 0 <= k < n ensures s[..n][k].score == score(s[..n][k].law) {
      assert s[..n][k] == s[k];
    }
  }

  /** The ties of a prefix of the sorted entries lead the ties of the unsorted ones. */
  lemma SortedPrefixTies(s: seq<ScoredLaw>, n: nat, v: real)
    requires n <= |SortDesc(s)|
    ensures Ties(s, v) == Ties(SortDesc(s)[..n], v) + Ties(SortDesc(s)[n..], v)
  {
    var sorted := SortDesc(s);
    SortDescStable(s, v);
    assert sorted == sorted[..n] + sorted[n..];
    TiesAppend(sorted[..n], sorted[n..], v);
  }

  /** Clauses of equal relevance come back in knowledge-base order, as a leading run of them. */
  lemma TopStable(score: Clause -> real, kb: seq<Clause>, limit: nat, v: real)
    ensures ClausesScoring(score, TopBy(score, kb, limit), v) <= ClausesScoring(score, kb, v)
  {
    var all := ScoreAll(score, kb);
    var sorted := SortDesc(all);
    var n := TopPrefix(score, kb, limit);
    SortedFaithful(score, kb);
    FaithfulPrefix(score, sorted, n);
    LawsTies(score, sorted[..n], v);
    LawsTies(score, all, v);
    SortedPrefixTies(all, n, v);
    LawsAppend(Ties(sorted[..n], v), Ties(sorted[n..], v));
  }

  /** An empty knowledge base or a zero limit yields nothing. */
  lemma TopEmpty(score: Clause -> real, kb: seq<Clause>, limit: nat)
    ensures kb == [] || limit == 0 ==> TopBy(score, kb, limit) == []
  {
    var n := TopPrefix(score, kb, limit);
    if kb == [] {
      assert |ScoreAll(score, kb)| == 0;
    }
  }

  // What `searchRelevantLaws` promises about its answer, in terms of
  // `calculateRelevance`: each lemma below instantiates one of the `Top`
  // lemmas with the relevance scoring.

  /** At most `limit` clauses, each from the knowledge base and each with positive relevance. */
  lemma RetrieveBounded(text: string, kb: seq<Clause>, limit: nat)
    ensures |Retrieve(text, kb, limit)| <= limit
    ensures forall k :: 0 <= k < |Retrieve(text, kb, limit)| ==>
      Retrieve(text, kb, limit)[k] in kb && Relevance(text, Retrieve(text, kb, limit)[k]) > 0.0
  {
    TopBounded(RelevanceTo(text), kb, limit);
  }

  /** Most relevant first. */
  lemma RetrieveOrdered(text: string, kb: seq<Clause>, limit: nat)
    ensures forall i, j :: 0 <= i < j < |Retrieve(text, kb, limit)| ==>
      Relevance(text, Retrieve(text, kb, limit)[i]) >= Relevance(text, Retrieve(text, kb, limit)[j])
  {
    TopOrdered(RelevanceTo(text), kb, limit);
  }

  /** No clause left out is more relevant than one kept. */
  lemma RetrieveCutoff(text: string, kb: seq<Clause>, limit: nat)
    ensures forall c, k :: c in kb && c !in Retrieve(text, kb, limit) && 0 <= k < |Retrieve(text, kb, limit)| ==>
      Relevance(text, c) <= Relevance(text, Retrieve(text, kb, limit)[k])
  {
    var score, r := RelevanceTo(text), Retrieve(text, kb, limit);
    TopCutoff(score, kb, limit);
    forall c, k | c in kb && c !in r && 0 <= k < |r| ensures Relevance(text, c) <= Relevance(text, r[k]) {
      assert score(c) <= score(r[k]);
    }
  }

  /** Fewer than `limit` answers means every clause with positive relevance is among them. */
  lemma RetrieveComplete(text: string, kb: seq<Clause>, limit: nat)
    ensures |Retrieve(text, kb, limit)| < limit ==>
      forall c :: c in kb && Relevance(text, c) > 0.0 ==> c in Retrieve(text, kb, limit)
  {
    TopComplete(RelevanceTo(text), kb, limit);
  }

  /** Equally relevant clauses come back in knowledge-base order. */
  lemma RetrieveStable(text: string, kb: seq<Clause>, limit: nat, v: real)
    ensures ClausesScoring(RelevanceTo(text), Retrieve(text, kb, limit), v) <= ClausesScoring(RelevanceTo(text), kb, v)
  {
    TopStable(RelevanceTo(text), kb, limit, v);
  }

  /**
   * `searchRelevantLaws(termText, limit)`: loads the knowledge base on first
   * use (`outcome` is what that read produces), returns `[]` when it is
   * missing or empty, and otherwise scores, sorts and cuts as `Retrieve`.
   */
  method SearchRelevantLaws(store: LawKnowledgeBase, termText: string, limit: nat, outcome: FetchOutcome)
    returns (topLaws: seq<Clause>)
    requires store.Valid()
    modifies store
    ensures store.Valid()
    ensures old(store.lawKBLoaded) ==> store.lawKBLoaded && store.lawKB == old(store.lawKB)
    ensures !old(store.lawKBLoaded) && outcome.Fetched? ==>
      store.lawKBLoaded && store.lawKB == Some(outcome.records)
    ensures !old(store.lawKBLoaded) && outcome.FetchedNull? ==> store.lawKBLoaded && store.lawKB == None
    ensures !old(store.lawKBLoaded) && outcome.FetchFailed? ==> !store.lawKBLoaded && store.lawKB == None
    ensures store.lawKB.None? ==> topLaws == []
    ensures store.lawKB.Some? ==> topLaws == Retrieve(termText, store.lawKB.value, limit)
  {
    if !store.lawKBLoaded {
      var _ := store.Load(outcome);
    }
    if store.lawKB.None? || |store.lawKB.value| == 0 {
      if store.lawKB.Some? {
        TopEmpty(RelevanceTo(termText), store.lawKB.value, limit);
      }
      return [];
    }
    var scoredLaws := ScoreClauses(termText, store.lawKB.value);
    SortByScoreDesc(scoredLaws);
    topLaws := Laws(Take(Positive(scoredLaws[..]), limit));
  }

  /** `lawKB.map(...)` with `calculateRelevance`, into a fresh array. */
  method ScoreClauses(termText: string, kb: seq<Clause>) returns (scoredLaws: array<ScoredLaw>)
    requires kb != []
    ensures fresh(scoredLaws)
    ensures scoredLaws[..] == ScoreAll(RelevanceTo(termText), kb)
  {
    var first := kb[0];
    scoredLaws := new ScoredLaw[|kb|](_ => ScoredLaw(first, 0.0));
    for i := 0 to |kb|
      invariant scoredLaws[..i] == ScoreAll(RelevanceTo(termText), kb[..i])
    {
      var score := CalculateRelevance(termText, kb[i]);
      scoredLaws[i] := ScoredLaw(kb[i], score);
    }
    assert kb[..|kb|] == kb;
  }
}
