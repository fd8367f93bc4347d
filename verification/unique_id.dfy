/**
 * `unique_id`: keeps ids unique by probing `base-2`, `base-3`, ... against a
 * mutable set of ids already in use, and registering the winner.
 */
module Ids {
  import opened Text
  import opened Slug

  /** The probe `f"{base}-{i}"`. */
  function Candidate(base: string, i: nat): (r: string)
    ensures r != base
    ensures IsSlug(base) ==> IsSlug(r)
  {
    var d := DecimalString(i);
    DigitsJoin(base, d);
    base + "-" + d
  }

  /** A slug, a hyphen and decimal digits form a slug. */
  lemma DigitsJoin(base: string, d: string)
    requires d != [] && IsDigits(d)
    ensures IsSlug(base) ==> IsSlug(base + "-" + d)
  {
    if IsSlug(base) {
      forall k | 0 <= k < |d| ensures IsSlugChar(d[k]) {
        assert '0' <= d[k] <= '9';
      }
      SlugJoin(base, d);
    }
  }

  /** Distinct numbers give distinct probes. */
  lemma CandidateInjective(base: string, i: nat, j: nat)
    requires Candidate(base, i) == Candidate(base, j)
    ensures i == j
  {
    var n := |base| + 1;
    assert DecimalString(i) == Candidate(base, i)[n..];
    assert DecimalString(j) == Candidate(base, j)[n..];
    DecimalStringInjective(i, j);
  }

  /** The probes numbered below `i`. */
  function Probed(base: string, i: nat): set<string> {
    set j | 0 <= j < i :: Candidate(base, j)
  }

  lemma ProbedNext(base: string, i: nat)
    ensures Candidate(base, i) !in Probed(base, i)
    ensures Probed(base, i + 1) == Probed(base, i) + {Candidate(base, i)}
  {
    if Candidate(base, i) in Probed(base, i) {
      var j :| 0 <= j < i && Candidate(base, j) == Candidate(base, i);
      CandidateInjective(base, i, j);
    }
  }

  /** The least `k >= i` whose probe is free. It exists because every failed probe is a
      different member of the finite set `used`. */
  function FirstFree(base: string, used: set<string>, i: nat): (k: nat)
    ensures k >= i && Candidate(base, k) !in used
    ensures forall j :: i <= j < k ==> Candidate(base, j) in used
    decreases used - Probed(base, i)
  {
    if Candidate(base, i) !in used then i
    else
      ProbedNext(base, i);
      FirstFree(base, used, i + 1)
  }

  /** What `unique_id(base, used)` returns, as a function of `used` on entry. */
  function Resolve(base: string, used: set<string>): (uid: string)
    ensures uid !in used
    ensures uid == base <==> base !in used
    ensures base in used ==>
      exists k :: k >= 2 && uid == Candidate(base, k) &&
        forall j :: 2 <= j < k ==> Candidate(base, j) in used
  {
    if base !in used then base
    else
      var k := FirstFree(base, used, 2);
      Candidate(base, k)
  }

  /** The set of ids in use, which `unique_id` updates in place. */
  class UsedIds {
    var ids: set<string>

    constructor (initial: set<string>)
      ensures ids == initial
    {
      ids := initial;
    }
  }

  /** `unique_id(base, used)`: returns an id that was not in use and registers it. */
  method UniqueId(base: string, used: UsedIds) returns (uid: string)
    modifies used
    ensures uid !in old(used.ids)
    ensures used.ids == old(used.ids) + {uid}
    ensures uid == Resolve(base, old(used.ids))
  {
    if base !in used.ids {
      used.ids := used.ids + {base};
      return base;
    }
    var i := 2;
    while Candidate(base, i) in used.ids
      invariant i >= 2 && used.ids == old(used.ids)
      invariant FirstFree(base, used.ids, i) == FirstFree(base, used.ids, 2)
      decreases used.ids - Probed(base, i)
    {
      ProbedNext(base, i);
      i := i + 1;
    }
    uid := Candidate(base, i);
    used.ids := used.ids + {uid};
  }
}
