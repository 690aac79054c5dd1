/**
 * `parseCandidate`: the module-level `candidateCache` map in front of
 * `parseRawCandidate`, keyed by the raw text only.
 */
module Cache {
  import opened Wrappers
  import opened Syntax
  import opened CandidateParser

  /** Every entry of `m` is what parsing its key under `ctx` and `col` gives. */
  ghost predicate CoherentMap(m: map<string, Option<Candidate>>, ctx: Context, col: Collaborators) {
    forall k :: k in m ==> m[k] == ParseRawCandidate(k, ctx, col)
  }

  /** Storing a freshly parsed result keeps a coherent map coherent. */
  lemma StoreKeepsCoherent(m: map<string, Option<Candidate>>, raw: string, ctx: Context, col: Collaborators)
    requires CoherentMap(m, ctx, col)
    ensures CoherentMap(m[raw := ParseRawCandidate(raw, ctx, col)], ctx, col)
  {
  }

  class CandidateCache {
    /** `candidateCache`: raw text to the stored result, `None` standing for `null`. */
    var entries: map<string, Option<Candidate>>

    constructor ()
      ensures entries == map[]
    {
      entries := map[];
    }

    /**
     * Every stored result is what parsing its key under `ctx` and `col` gives.
     * The key ignores the configuration, so a cache filled under one configuration
     * need not be coherent with another.
     */
    ghost predicate Coherent(ctx: Context, col: Collaborators)
      reads this
    {
      CoherentMap(entries, ctx, col)
    }

    /**
     * `parseCandidate`: a stored candidate is returned as it is; a missing key or
     * a stored `null` (falsy in `if (!candidate)`) is parsed again and stored.
     */
    method ParseCandidate(raw: string, ctx: Context, col: Collaborators) returns (r: Option<Candidate>)
      modifies this
      ensures entries == old(entries)[raw := r]
      ensures old(raw in entries && entries[raw].Some?) ==> r == old(entries[raw])
      ensures old(raw !in entries || entries[raw].None?) ==> r == ParseRawCandidate(raw, ctx, col)
      ensures old(Coherent(ctx, col)) ==> Coherent(ctx, col) && r == ParseRawCandidate(raw, ctx, col)
    {
      var candidate := if raw in entries then entries[raw] else None;
      if candidate.None? {
        candidate := ParseRawCandidate(raw, ctx, col);
        if CoherentMap(entries, ctx, col) {
          StoreKeepsCoherent(entries, raw, ctx, col);
        }
        entries := entries[raw := candidate];
      }
      r := candidate;
    }
  }
}
