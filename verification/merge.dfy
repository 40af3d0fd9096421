/**
 * The de-duplication of retrieved clauses in `analyzeTermsWithGemini`: every
 * clause found for any block is `set` into a JavaScript `Map` under its id,
 * and the map's values, in key insertion order, are the unique clauses. A
 * `set` on a key already present replaces the value but keeps the key where
 * it was.
 */
module Merge {
  import opened LawKnowledge
  import opened Retrieval
  import opened Scoring

  /** A `Map` from clause id to clause: the keys in insertion order and the entries. */
  datatype Merged = Merged(keys: seq<string>, byId: map<string, Clause>)

  /** The keys listed are exactly the entries present, each listed once. */
  ghost predicate WellFormed(m: Merged) {
    (forall id :: id in m.byId <==> id in m.keys)
    && (forall i, j :: 0 <= i < j < |m.keys| ==> m.keys[i] != m.keys[j])
  }

  /** `map.set(law.id, law)`: the existing keys keep their order. */
  function SetEntry(m: Merged, law: Clause): (r: Merged)
    ensures m.keys <= r.keys
  {
    Merged(if law.id in m.byId then m.keys else m.keys + [law.id], m.byId[law.id := law])
  }

  /** The map after setting every clause of `laws`, in order, into an empty map. */
  function MergeAll(laws: seq<Clause>): (m: Merged)
    ensures WellFormed(m)
  {
    if laws == [] then Merged([], map[])
    else SetEntry(MergeAll(laws[..|laws| - 1]), laws[|laws| - 1])
  }

  /** `Array.from(map.values())`: one value per key, each an entry of the map. */
  function Values(m: Merged): (r: seq<Clause>)
    requires forall k :: 0 <= k < |m.keys| ==> m.keys[k] in m.byId
    ensures |r| == |m.keys|
    ensures forall c :: c in r ==> c in m.byId.Values
  {
    seq(|m.keys|, k requires 0 <= k < |m.keys| => m.byId[m.keys[k]])
  }

  /**
   * Setting an entry makes the id hold the clause, keeps every other entry,
   * adds the id to the keys only when it is new, and keeps a well-formed
   * map well-formed.
   */
  lemma SetEntryEffect(m: Merged, law: Clause)
    ensures law.id in SetEntry(m, law).byId && SetEntry(m, law).byId[law.id] == law
    ensures forall id :: id in m.byId && id != law.id ==>
      id in SetEntry(m, law).byId && SetEntry(m, law).byId[id] == m.byId[id]
    ensures law.id in m.byId ==> SetEntry(m, law).keys == m.keys
    ensures law.id !in m.byId ==> SetEntry(m, law).keys == m.keys + [law.id]
    ensures WellFormed(m) ==> WellFormed(SetEntry(m, law))
  {
  }

  /** For a well-formed map every entry appears among the values. */
  lemma ValuesCoverEntries(m: Merged)
    requires WellFormed(m)
    ensures forall c :: c in m.byId.Values ==> c in Values(m)
  {
    forall c | c in m.byId.Values ensures c in Values(m) {
      var id :| id in m.byId && m.byId[id] == c;
      var k :| 0 <= k < |m.keys| && m.keys[k] == id;
      assert Values(m)[k] == c;
    }
  }

  /** The blocks' answers one after the other. */
  function Flatten(perBlock: seq<seq<Clause>>): seq<Clause> {
    if perBlock == [] then []
    else Flatten(perBlock[..|perBlock| - 1]) + perBlock[|perBlock| - 1]
  }

  /** An id is a key exactly when some clause carries it. */
  lemma {:induction false} MergeAllKeys(laws: seq<Clause>)
    ensures forall id :: id in MergeAll(laws).byId <==> exists i :: 0 <= i < |laws| && laws[i].id == id
  {
    if laws != [] {
      var init := laws[..|laws| - 1];
      MergeAllKeys(init);
      forall id | id in MergeAll(laws).byId ensures exists i :: 0 <= i < |laws| && laws[i].id == id {
        if id != laws[|laws| - 1].id {
          var i :| 0 <= i < |init| && init[i].id == id;
          assert laws[i] == init[i];
        }
      }
      forall id, i | 0 <= i < |laws| && laws[i].id == id ensures id in MergeAll(laws).byId {
        if i < |laws| - 1 {
          assert init[i] == laws[i];
        }
      }
    }
  }

  /** Each id holds the last clause that carries it. */
  lemma {:induction false} MergeAllLastWins(laws: seq<Clause>)
    ensures forall id :: id in MergeAll(laws).byId ==>
      MergeAll(laws).byId[id].id == id &&
      exists j :: 0 <= j < |laws| && laws[j] == MergeAll(laws).byId[id] &&
        forall k :: j < k < |laws| ==> laws[k].id != id
  {
    if laws != [] {
      var init, last := laws[..|laws| - 1], laws[|laws| - 1];
      MergeAllLastWins(init);
      assert laws == init + [last];
      var m := MergeAll(laws);
      forall id | id in m.byId
        ensures m.byId[id].id == id
        ensures exists j :: 0 <= j < |laws| && laws[j] == m.byId[id] && forall k :: j < k < |laws| ==> laws[k].id != id
      {
        if id == last.id {
          assert laws[|laws| - 1] == m.byId[id];
        } else {
          var j :| 0 <= j < |init| && init[j] == MergeAll(init).byId[id] && forall k :: j < k < |init| ==> init[k].id != id;
          LaterIdsAppend(init, last, id, j);
        }
      }
    }
  }

  /** A clause not followed by its id stays so when a clause with another id is appended. */
  lemma LaterIdsAppend(init: seq<Clause>, last: Clause, id: string, j: nat)
    requires j < |init| && last.id != id
    requires forall k :: j < k < |init| ==> init[k].id != id
    ensures (init + [last])[j] == init[j]
    ensures forall k :: j < k < |init| + 1 ==> (init + [last])[k].id != id
  {
  }

  /** The keys of `m` come in the order in which their ids first appear in `laws`. */
  ghost predicate FirstAppearanceOrder(laws: seq<Clause>, m: Merged) {
    forall a, b, j :: 0 <= a < b < |m.keys| && 0 <= j < |laws| && laws[j].id == m.keys[b] ==>
      exists i :: 0 <= i < j && laws[i].id == m.keys[a]
  }

  /** Keys come in the order in which their ids first appear. */
  lemma {:induction false} MergeAllFirstAppearance(laws: seq<Clause>)
    ensures FirstAppearanceOrder(laws, MergeAll(laws))
  {
    if laws != [] {
      var init := laws[..|laws| - 1];
      MergeAllFirstAppearance(init);
      MergeAllKeys(init);
      var m := MergeAll(laws);
      forall a, b, j | 0 <= a < b < |m.keys| && 0 <= j < |laws| && laws[j].id == m.keys[b]
        ensures exists i :: 0 <= i < j && laws[i].id == m.keys[a]
      {
        assert laws == init + [laws[|laws| - 1]];
        FirstAppearanceStep(init, laws[|laws| - 1], MergeAll(init), a, b, j);
      }
    }
  }

  /** One step of the induction above: the pair `a`, `b` once `last` is set into `m0`. */
  lemma FirstAppearanceStep(init: seq<Clause>, last: Clause, m0: Merged, a: nat, b: nat, j: nat)
    requires forall k :: 0 <= k < |m0.keys| ==> m0.keys[k] in m0.byId
    requires FirstAppearanceOrder(init, m0)
    requires forall id :: id in m0.byId <==> exists i :: 0 <= i < |init| && init[i].id == id
    requires a < b < |SetEntry(m0, last).keys| && j <= |init| && (init + [last])[j].id == SetEntry(m0, last).keys[b]
    ensures exists i :: 0 <= i < j && (init + [last])[i].id == SetEntry(m0, last).keys[a]
  {
    var laws, m := init + [last], SetEntry(m0, last);
    if b < |m0.keys| {
      // Both keys were there before; `b` occurs in `init`, at `j` or earlier.
      assert m.keys[a] == m0.keys[a] && m.keys[b] == m0.keys[b] && m0.keys[b] in m0.byId;
      var q :| 0 <= q < |init| && init[q].id == m0.keys[b];
      assert laws[q] == init[q];
      var j' := if j < |init| then j else q;
      assert j' <= j && init[j'].id == m0.keys[b];
      var i :| 0 <= i < j' && init[i].id == m0.keys[a];
      assert laws[i] == init[i];
    } else {
      // `b` is the new key of `last`, so `j` is the last position and `a` occurs in `init`.
      assert m.keys[a] == m0.keys[a] && m0.keys[a] in m0.byId;
      var q :| 0 <= q < |init| && init[q].id == m0.keys[a];
      assert laws[q] == init[q];
      assert j == |init| by {
        assert m.keys[b] == last.id && last.id !in m0.byId;
        forall k | 0 <= k < |init| ensures laws[k].id != last.id {
          assert laws[k] == init[k];
        }
      }
    }
  }

  /** Every value of the map is one of the clauses set into it. */
  lemma ValuesFromInput(laws: seq<Clause>)
    ensures forall c :: c in Values(MergeAll(laws)) ==> c in laws
  {
    MergeAllLastWins(laws);
    var m := MergeAll(laws);
    forall c | c in Values(m) ensures c in laws {
      var k :| 0 <= k < |m.keys| && Values(m)[k] == c;
      assert m.keys[k] in m.byId;
    }
  }

  lemma {:induction false} FlattenMember(perBlock: seq<seq<Clause>>, c: Clause)
    requires c in Flatten(perBlock)
    ensures exists b :: 0 <= b < |perBlock| && c in perBlock[b]
  {
    var init := perBlock[..|perBlock| - 1];
    if c !in perBlock[|perBlock| - 1] {
      FlattenMember(init, c);
      var b :| 0 <= b < |init| && c in init[b];
      assert perBlock[b] == init[b];
    }
  }

  /** The clauses retrieved for each block of `texts`, as `searchRelevantLaws(text, limit)` returns them. */
  function PerBlock(texts: seq<string>, kb: seq<Clause>, limit: nat): seq<seq<Clause>> {
    seq(|texts|, i requires 0 <= i < |texts| => Retrieve(texts[i], kb, limit))
  }

  /** Every collected clause is in the knowledge base and relevant to at least one block. */
  lemma CollectedLawsRelevant(texts: seq<string>, kb: seq<Clause>, limit: nat)
    ensures forall c :: c in Values(MergeAll(Flatten(PerBlock(texts, kb, limit)))) ==>
      c in kb && exists i :: 0 <= i < |texts| && Relevance(texts[i], c) > 0.0
  {
    var perBlock := PerBlock(texts, kb, limit);
    ValuesFromInput(Flatten(perBlock));
    forall c | c in Values(MergeAll(Flatten(perBlock)))
      ensures c in kb && exists i :: 0 <= i < |texts| && Relevance(texts[i], c) > 0.0
    {
      FlattenMember(perBlock, c);
      var b :| 0 <= b < |perBlock| && c in perBlock[b];
      RetrieveBounded(texts[b], kb, limit);
      var k :| 0 <= k < |perBlock[b]| && perBlock[b][k] == c;
    }
  }

  /** The `Map` object itself, updated in place by `set`. */
  class LawMap {
    var keys: seq<string>
    var byId: map<string, Clause>

    function Contents(): Merged
      reads this
    {
      Merged(keys, byId)
    }

    /** `new Map()`. */
    constructor ()
      ensures Contents() == Merged([], map[])
    {
      keys := [];
      byId := map[];
    }

    /** `set(law.id, law)`. */
    method Set(law: Clause)
      modifies this
      ensures Contents() == SetEntry(old(Contents()), law)
    {
      if law.id !in byId {
        keys := keys + [law.id];
      }
      byId := byId[law.id := law];
    }
  }

  /** The map `m` after setting every clause of `laws` into it, in order. */
  function SetEach(m: Merged, laws: seq<Clause>): Merged {
    if laws == [] then m
    else SetEntry(SetEach(m, laws[..|laws| - 1]), laws[|laws| - 1])
  }

  /** Merging in two runs is merging the runs one after the other. */
  lemma {:induction false} MergeAllAppend(before: seq<Clause>, laws: seq<Clause>)
    ensures MergeAll(before + laws) == SetEach(MergeAll(before), laws)
    decreases |laws|
  {
    if laws == [] {
      assert before + laws == before;
    } else {
      var init := laws[..|laws| - 1];
      MergeAllAppend(before, init);
      assert (before + laws)[..|before + laws| - 1] == before + init;
    }
  }

  /** `relevantLaws.forEach(law => allRelevantLaws.set(law.id, law))`. */
  method SetAll(allRelevantLaws: LawMap, relevantLaws: seq<Clause>)
    modifies allRelevantLaws
    ensures allRelevantLaws.Contents() == SetEach(old(allRelevantLaws.Contents()), relevantLaws)
  {
    ghost var m0 := allRelevantLaws.Contents();
    for j := 0 to |relevantLaws|
      invariant allRelevantLaws.Contents() == SetEach(m0, relevantLaws[..j])
    {
      assert relevantLaws[..j + 1][..j] == relevantLaws[..j];
      allRelevantLaws.Set(relevantLaws[j]);
    }
    assert relevantLaws[..|relevantLaws|] == relevantLaws;
  }

  /**
   * The loop over the blocks: each block's retrieved clauses are set into
   * the map, and the map's values are the unique clauses.
   */
  method CollectUniqueLaws(perBlock: seq<seq<Clause>>) returns (uniqueLaws: seq<Clause>)
    ensures uniqueLaws == Values(MergeAll(Flatten(perBlock)))
  {
    var allRelevantLaws := new LawMap();
    for b := 0 to |perBlock|
      invariant allRelevantLaws.Contents() == MergeAll(Flatten(perBlock[..b]))
    {
      assert perBlock[..b + 1][..b] == perBlock[..b];
      SetAll(allRelevantLaws, perBlock[b]);
      MergeAllAppend(Flatten(perBlock[..b]), perBlock[b]);
    }
    assert perBlock[..|perBlock|] == perBlock;
    uniqueLaws := Values(allRelevantLaws.Contents());
  }
}
