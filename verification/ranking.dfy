/**
 * `scoredLaws.sort((a, b) => b.score - a.score)`: an in-place stable sort of
 * the scored clauses, highest score first. `SortDesc` is the specification
 * (insertion that keeps equal scores in arrival order); `SortByScoreDesc`
 * sorts an array in place and is proved to produce it.
 */
module Ranking {
  import opened LawKnowledge
  import opened Seqs

  /** `{ law, score }` as built by `searchRelevantLaws`. */
  datatype ScoredLaw = ScoredLaw(law: Clause, score: real)

  ghost predicate NonIncreasing(s: seq<ScoredLaw>) {
    forall i, j :: 0 <= i < j < |s| ==> s[i].score >= s[j].score
  }

  /** The entries of `s` whose score is `v`, in their order in `s`. */
  function Ties(s: seq<ScoredLaw>, v: real): (t: seq<ScoredLaw>)
    ensures |t| <= |s|
  {
    if s == [] then []
    else (if s[0].score == v then [s[0]] else []) + Ties(s[1..], v)
  }

  /**
   * Places `x` after every entry of `s` scoring at least as much as `x`
   * and before the first entry that scores less.
   */
  function Insert(x: ScoredLaw, s: seq<ScoredLaw>): seq<ScoredLaw> {
    if s == [] then [x]
    else if s[0].score >= x.score then [s[0]] + Insert(x, s[1..])
    else [x] + s
  }

  /** Insertion adds `x` and loses nothing. */
  lemma {:induction false} InsertPermutes(x: ScoredLaw, s: seq<ScoredLaw>)
    ensures multiset(Insert(x, s)) == multiset(s) + multiset{x}
  {
    if s != [] {
      assert s == [s[0]] + s[1..];
      if s[0].score >= x.score {
        InsertPermutes(x, s[1..]);
      }
    }
  }

  /** Inserting into a sorted sequence leaves it sorted. */
  lemma {:induction false} InsertKeepsOrder(x: ScoredLaw, s: seq<ScoredLaw>)
    requires NonIncreasing(s)
    ensures NonIncreasing(Insert(x, s))
  {
    if s == [] {
    } else if s[0].score >= x.score {
      var rest := Insert(x, s[1..]);
      InsertKeepsOrder(x, s[1..]);
      InsertPermutes(x, s[1..]);
      HeadBoundsInsert(x, s, rest);
      var r := [s[0]] + rest;
      forall i, j | 0 <= i < j < |r| ensures r[i].score >= r[j].score {
        if i == 0 {
          assert r[j] == rest[j - 1];
        } else {
          assert r[i] == rest[i - 1] && r[j] == rest[j - 1];
        }
      }
    } else {
      var r := [x] + s;
      forall i, j | 0 <= i < j < |r| ensures r[i].score >= r[j].score {
        assert r[j] == s[j - 1];
        if i > 0 {
          assert r[i] == s[i - 1];
        }
      }
    }
  }

  /** The head of a sorted `s` scores at least as much as everything in `Insert(x, s[1..])`. */
  lemma HeadBoundsInsert(x: ScoredLaw, s: seq<ScoredLaw>, rest: seq<ScoredLaw>)
    requires s != [] && s[0].score >= x.score && NonIncreasing(s)
    requires multiset(rest) == multiset(s[1..]) + multiset{x}
    ensures forall k :: 0 <= k < |rest| ==> s[0].score >= rest[k].score
  {
    forall k | 0 <= k < |rest| ensures s[0].score >= rest[k].score {
      var y := rest[k];
      assert y in multiset(rest);
      if y != x {
        assert y in multiset(s[1..]);
        var m :| 0 <= m < |s[1..]| && s[1..][m] == y;
        assert s[m + 1] == y;
      }
    }
  }

  /** The stable sort by descending score. */
  function SortDesc(s: seq<ScoredLaw>): (r: seq<ScoredLaw>)
    ensures multiset(r) == multiset(s)
    ensures NonIncreasing(r)
  {
    if s == [] then []
    else
      assert s == s[..|s| - 1] + [s[|s| - 1]];
      var sorted := SortDesc(s[..|s| - 1]);
      InsertKeepsOrder(s[|s| - 1], sorted);
      InsertPermutes(s[|s| - 1], sorted);
      Insert(s[|s| - 1], sorted)
  }

  lemma {:induction false} TiesAppend(a: seq<ScoredLaw>, b: seq<ScoredLaw>, v: real)
    ensures Ties(a + b, v) == Ties(a, v) + Ties(b, v)
  {
    if a == [] {
      assert a + b == b;
    } else {
      var head := if a[0].score == v then [a[0]] else [];
      assert (a + b)[0] == a[0] && (a + b)[1..] == a[1..] + b;
      assert Ties(a + b, v) == head + Ties(a[1..] + b, v);
      TiesAppend(a[1..], b, v);
      assert Ties(a, v) == head + Ties(a[1..], v);
    }
  }

  lemma {:induction false} NoTies(s: seq<ScoredLaw>, v: real)
    requires forall k :: 0 <= k < |s| ==> s[k].score != v
    ensures Ties(s, v) == []
  {
    if s != [] {
      NoTies(s[1..], v);
    }
  }

  lemma TiesCons(y: ScoredLaw, s: seq<ScoredLaw>, v: real)
    ensures Ties([y] + s, v) == (if y.score == v then [y] else []) + Ties(s, v)
  {
    assert ([y] + s)[0] == y && ([y] + s)[1..] == s;
  }

  lemma NonIncreasingTail(s: seq<ScoredLaw>)
    requires s != [] && NonIncreasing(s)
    ensures NonIncreasing(s[1..])
    ensures forall k :: 0 <= k < |s| ==> s[k].score <= s[0].score
  {
    forall i, j | 0 <= i < j < |s[1..]| ensures s[1..][i].score >= s[1..][j].score {
      assert s[1..][i] == s[i + 1] && s[1..][j] == s[j + 1];
    }
  }

  /** Inserting `x` appends it to the entries of its own score and leaves the others alone. */
  lemma {:induction false} InsertTies(x: ScoredLaw, s: seq<ScoredLaw>, v: real)
    requires NonIncreasing(s)
    ensures Ties(Insert(x, s), v) == Ties(s, v) + (if x.score == v then [x] else [])
  {
    if s == [] {
      TiesCons(x, [], v);
    } else {
      NonIncreasingTail(s);
      if s[0].score >= x.score {
        InsertTies(x, s[1..], v);
        InsertTiesBehind(x, s, v);
      } else {
        InsertTiesFront(x, s, v);
      }
    }
  }

  /** `x` goes past the head of `s`: the step from the tail to the whole. */
  lemma InsertTiesBehind(x: ScoredLaw, s: seq<ScoredLaw>, v: real)
    requires s != [] && s[0].score >= x.score
    requires Ties(Insert(x, s[1..]), v) == Ties(s[1..], v) + (if x.score == v then [x] else [])
    ensures Ties(Insert(x, s), v) == Ties(s, v) + (if x.score == v then [x] else [])
  {
    var h0, hx, t := if s[0].score == v then [s[0]] else [], if x.score == v then [x] else [], Ties(s[1..], v);
    TiesCons(s[0], s[1..], v);
    assert [s[0]] + s[1..] == s;
    assert Insert(x, s) == [s[0]] + Insert(x, s[1..]);
    TiesCons(s[0], Insert(x, s[1..]), v);
    ConcatAssoc(h0, t, hx);
  }

  /** `x` goes in front of `s`, whose scores are all lower. */
  lemma InsertTiesFront(x: ScoredLaw, s: seq<ScoredLaw>, v: real)
    requires s != [] && x.score > s[0].score
    requires forall k :: 0 <= k < |s| ==> s[k].score <= s[0].score
    ensures Ties(Insert(x, s), v) == Ties(s, v) + (if x.score == v then [x] else [])
  {
    TiesCons(x, s, v);
    if x.score == v {
      NoTies(s, v);
    }
  }

  /**
   * The sort is stable: for every score, the entries with that score come
   * out in the order they went in.
   */
  lemma {:induction false} SortDescStable(s: seq<ScoredLaw>, v: real)
    ensures Ties(SortDesc(s), v) == Ties(s, v)
  {
    if s != [] {
      var init, last := s[..|s| - 1], s[|s| - 1];
      SplitLast(s);
      assert SortDesc(s) == Insert(last, SortDesc(init));
      SortDescStable(init, v);
      InsertTies(last, SortDesc(init), v);
      TiesAppend(init, [last], v);
      TiesCons(last, [], v);
      AppendEmpty([last]);
    }
  }

  /** Where `Insert` puts `x`: after the prefix scoring at least as much, before the rest. */
  lemma {:induction false} InsertAt(x: ScoredLaw, s: seq<ScoredLaw>, j: nat)
    requires j <= |s|
    requires forall k :: 0 <= k < j ==> s[k].score >= x.score
    requires forall k :: j <= k < |s| ==> s[k].score < x.score
    ensures Insert(x, s) == s[..j] + [x] + s[j..]
  {
    if s != [] && j > 0 {
      InsertAt(x, s[1..], j - 1);
      assert s[..j] == [s[0]] + s[1..][..j - 1];
      assert s[1..][j - 1..] == s[j..];
    }
  }

  /**
   * One pass of the insertion sort: shifts the sorted prefix `a[..i]` right
   * past every entry scoring less than `a[i]`, then drops `a[i]` into the gap.
   */
  method InsertInto(a: array<ScoredLaw>, i: nat)
    requires i < a.Length && NonIncreasing(a[..i])
    modifies a
    ensures a[..i + 1] == Insert(old(a[i]), old(a[..i]))
    ensures forall k :: i < k < a.Length ==> a[k] == old(a[k])
  {
    var key := a[i];
    ghost var sorted := a[..i];
    var j := i;
    while j > 0 && a[j - 1].score < key.score
      invariant 0 <= j <= i
      invariant forall k :: 0 <= k < j ==> a[k] == sorted[k]
      invariant forall k :: j < k <= i ==> a[k] == sorted[k - 1]
      invariant forall k :: i < k < a.Length ==> a[k] == old(a[k])
      invariant forall k :: j <= k < i ==> sorted[k].score < key.score
    {
      a[j] := a[j - 1];
      j := j - 1;
    }
    a[j] := key;
    PrefixAbove(sorted, j, key);
    ShiftedIsInsert(a[..i + 1], sorted, key, j);
  }

  /** In a sorted sequence, everything before a position scoring at least `key` scores at least `key`. */
  lemma PrefixAbove(sorted: seq<ScoredLaw>, j: nat, key: ScoredLaw)
    requires NonIncreasing(sorted) && j <= |sorted|
    requires j > 0 ==> sorted[j - 1].score >= key.score
    ensures forall k :: 0 <= k < j ==> sorted[k].score >= key.score
  {
  }

  /** The array contents after a pass: the prefix, `key`, then the rest moved one cell right. */
  lemma ShiftedIsInsert(r: seq<ScoredLaw>, sorted: seq<ScoredLaw>, key: ScoredLaw, j: nat)
    requires j <= |sorted| && |r| == |sorted| + 1
    requires forall k :: 0 <= k < j ==> r[k] == sorted[k]
    requires r[j] == key
    requires forall k :: j < k < |r| ==> r[k] == sorted[k - 1]
    requires forall k :: 0 <= k < j ==> sorted[k].score >= key.score
    requires forall k :: j <= k < |sorted| ==> sorted[k].score < key.score
    ensures r == Insert(key, sorted)
  {
    assert r == sorted[..j] + [key] + sorted[j..];
    InsertAt(key, sorted, j);
  }

  /** Sorting one more element inserts it into the sorted prefix. */
  lemma SortDescSnoc(s: seq<ScoredLaw>, i: nat)
    requires i < |s|
    ensures SortDesc(s[..i + 1]) == Insert(s[i], SortDesc(s[..i]))
  {
    TakeTake(s, i, i + 1);
  }

  /** Sorts `a` in place, highest score first, equal scores in their original order. */
  method SortByScoreDesc(a: array<ScoredLaw>)
    modifies a
    ensures a[..] == SortDesc(old(a[..]))
  {
    ghost var orig := a[..];
    var i := 0;
    while i < a.Length
      invariant 0 <= i <= a.Length
      invariant a[..i] == SortDesc(orig[..i])
      invariant forall k :: i <= k < a.Length ==> a[k] == orig[k]
    {
      InsertInto(a, i);
      SortDescSnoc(orig, i);
      i := i + 1;
    }
    TakeAll(orig);
  }
}
