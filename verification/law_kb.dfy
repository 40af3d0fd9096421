/**
 * The legal knowledge base: its clause records and the lazily loaded,
 * process-wide cache (`lawKB` and `lawKBLoaded` in background.js).
 */
module LawKnowledge {
  import opened Wrappers

  /**
   * One clause record of `law_kb.json`. A missing `title`, `snippet` or
   * `category` is the empty string (the scorer reads them as `x || ''`);
   * a missing `weight` is `None`.
   */
  datatype Clause = Clause(
    id: string,
    title: string,
    snippet: string,
    category: string,
    law: string,
    article: string,
    weight: Option<real>)

  /**
   * What reading and parsing `law_kb.json` produced: an array of records,
   * the JSON literal `null`, or a failure (unreadable resource or malformed
   * JSON). The read itself is not modelled; it is this parameter.
   */
  datatype FetchOutcome = Fetched(records: seq<Clause>) | FetchedNull | FetchFailed

  class LawKnowledgeBase {
    /** `lawKB`: `None` is JavaScript's `null`. */
    var lawKB: Option<seq<Clause>>
    /** `lawKBLoaded`. */
    var lawKBLoaded: bool

    /** A clause set is only ever cached by a load that completed. */
    ghost predicate Valid()
      reads this
    {
      lawKB.Some? ==> lawKBLoaded
    }

    /** The module's initial state: `let lawKB = null; let lawKBLoaded = false;`. */
    constructor ()
      ensures Valid()
      ensures lawKB == None && !lawKBLoaded
    {
      lawKB := None;
      lawKBLoaded := false;
    }

    /**
     * `loadLawKB`. Once the flag is set the cached value is returned and
     * nothing changes. Otherwise a successful read caches the records, sets
     * the flag and returns them. A file holding `null` is stored and flagged
     * before the log line dereferences it and throws, so the call returns
     * `[]` yet the flag stays set. A failed read returns `[]` and leaves the
     * flag clear, so the next call tries again.
     */
    method Load(outcome: FetchOutcome) returns (r: Option<seq<Clause>>)
      requires Valid()
      modifies this
      ensures Valid()
      ensures old(lawKBLoaded) ==> lawKBLoaded && lawKB == old(lawKB) && r == lawKB
      ensures !old(lawKBLoaded) && outcome.Fetched? ==>
        lawKBLoaded && lawKB == Some(outcome.records) && r == lawKB
      ensures !old(lawKBLoaded) && outcome.FetchedNull? ==>
        lawKBLoaded && lawKB == None && r == Some([])
      ensures !old(lawKBLoaded) && outcome.FetchFailed? ==>
        !lawKBLoaded && lawKB == None && r == Some([])
    {
      if lawKBLoaded {
        return lawKB;
      }
      match outcome {
        case Fetched(records) =>
          lawKB := Some(records);
          lawKBLoaded := true;
          r := lawKB;
        case FetchedNull =>
          lawKB := None;
          lawKBLoaded := true;
          r := Some([]);
        case FetchFailed =>
          r := Some([]);
      }
    }
  }
}
