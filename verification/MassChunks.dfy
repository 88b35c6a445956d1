/** The greedy split of a transaction list into chunks of bounded mass that drives
    mempool validation. A transaction is known here by its compute mass alone. */
module MassChunks {
  import opened Options

  /** The mass of the transactions lo, ..., hi - 1. */
  ghost function Mass(masses: seq<nat>, lo: nat, hi: nat): nat
    requires lo <= hi <= |masses|
  {
    if lo == hi then 0 else Mass(masses, lo, hi - 1) + masses[hi - 1]
  }

  lemma {:induction false} MassMono(masses: seq<nat>, lo: nat, lo': nat, hi': nat, hi: nat)
    requires lo <= lo' <= hi' <= hi <= |masses|
    ensures Mass(masses, lo', hi') <= Mass(masses, lo, hi)
    decreases hi
  {
    if lo < hi && lo' < hi {
      if hi' < hi {
        MassMono(masses, lo, lo', hi', hi - 1);
      } else {
        MassMono(masses, lo, lo', hi' - 1, hi - 1);
      }
    }
  }

  /** A chunk is not empty, and its mass is below the limit unless it is a single transaction. */
  ghost predicate Chunk(masses: seq<nat>, limit: nat, lo: nat, hi: nat) {
    lo < hi <= |masses| && (hi == lo + 1 || Mass(masses, lo, hi) < limit)
  }

  /** A chunk that one more transaction would bring to the limit. */
  ghost predicate Full(masses: seq<nat>, limit: nat, lo: nat, hi: nat) {
    Chunk(masses, limit, lo, hi) && (hi < |masses| ==> Mass(masses, lo, hi + 1) >= limit)
  }

  /** `next_transaction_chunk_upper_bound`. */
  method NextChunkUpperBound(masses: seq<nat>, lower: nat, limit: nat) returns (upper: Option<nat>)
    ensures upper.None? <==> lower >= |masses|
    ensures upper.Some? ==> Full(masses, limit, lower, upper.value)
    ensures upper.Some? ==>
              && lower < upper.value <= |masses|
              && (upper.value > lower + 1 ==> Mass(masses, lower, upper.value) < limit)
              && (upper.value < |masses| ==> Mass(masses, lower, upper.value + 1) >= limit)
  {
    if lower >= |masses| {
      return None;
    }
    var mass := 0;
    for i := lower to |masses|
      invariant mass == Mass(masses, lower, i)
      invariant i > lower ==> mass < limit
    {
      mass := mass + masses[i];
      if mass >= limit {
        var relative := i - lower;
        upper := Some((if relative > 1 then relative else 1) + lower);
        if upper.value < |masses| {
          MassMono(masses, lower, lower, i + 1, upper.value + 1);
        }
        return;
      }
    }
    return Some(|masses|);
  }

  /** Cut points 0 = cuts[0] < cuts[1] < ... = n, each two in a row bounding a chunk. */
  ghost predicate Partition(masses: seq<nat>, limit: nat, cuts: seq<nat>) {
    && |cuts| > 0 && cuts[0] == 0 && cuts[|cuts| - 1] == |masses|
    && forall k :: 0 <= k < |cuts| - 1 ==> Chunk(masses, limit, cuts[k], cuts[k + 1])
  }

  ghost predicate Greedy(masses: seq<nat>, limit: nat, cuts: seq<nat>) {
    |cuts| > 0 && cuts[0] == 0 && forall k :: 0 <= k < |cuts| - 1 ==> Full(masses, limit, cuts[k], cuts[k + 1])
  }

  /** The validation loops: one result for each transaction, in order, chunk by chunk. */
  method ValidateInChunks<T, R>(txs: seq<T>, mass: T -> nat, limit: nat, validate: T -> R)
    returns (results: seq<R>, ghost cuts: seq<nat>)
    ensures results == seq(|txs|, i requires 0 <= i < |txs| => validate(txs[i]))
    ensures Partition(seq(|txs|, i requires 0 <= i < |txs| => mass(txs[i])), limit, cuts)
    ensures forall other :: Partition(seq(|txs|, i requires 0 <= i < |txs| => mass(txs[i])), limit, other) ==>
              |cuts| <= |other|
  {
    var masses := seq(|txs|, i requires 0 <= i < |txs| => mass(txs[i]));
    var lower := 0;
    results, cuts := [], [0];
    var upper := NextChunkUpperBound(masses, lower, limit);
    while upper.Some?
      invariant 0 <= lower <= |txs|
      invariant upper.None? <==> lower == |txs|
      invariant upper.Some? ==> Full(masses, limit, lower, upper.value)
      invariant |results| == lower && forall i :: 0 <= i < lower ==> results[i] == validate(txs[i])
      invariant Greedy(masses, limit, cuts) && cuts[|cuts| - 1] == lower
      decreases |txs| - lower
    {
      assert lower < upper.value;
      var chunk := txs[lower..upper.value];
      results := results + seq(|chunk|, i requires 0 <= i < |chunk| => validate(chunk[i]));
      cuts := cuts + [upper.value];
      lower := upper.value;
      upper := NextChunkUpperBound(masses, lower, limit);
    }
    forall other | Partition(masses, limit, other) ensures |cuts| <= |other| {
      FewestChunks(masses, limit, cuts, other);
    }
  }

  /** After k chunks no partition has come further than the greedy one. */
  lemma {:induction false} StaysAhead(masses: seq<nat>, limit: nat, cuts: seq<nat>, other: seq<nat>, k: nat)
    requires Greedy(masses, limit, cuts) && Partition(masses, limit, other)
    requires k < |cuts| && k < |other|
    ensures other[k] <= cuts[k]
  {
    if k > 0 {
      StaysAhead(masses, limit, cuts, other, k - 1);
      var g, g', p, p' := cuts[k - 1], cuts[k], other[k - 1], other[k];
      assert Full(masses, limit, g, g') && Chunk(masses, limit, p, p');
      if g' < p' {
        MassMono(masses, p, g, g' + 1, p');
      }
    }
  }

  lemma FewestChunks(masses: seq<nat>, limit: nat, cuts: seq<nat>, other: seq<nat>)
    requires Greedy(masses, limit, cuts) && Partition(masses, limit, other)
    ensures |cuts| <= |other|
  {
    if |other| < |cuts| {
      var k := |other| - 1;
      assert Full(masses, limit, cuts[k], cuts[k + 1]);
      StaysAhead(masses, limit, cuts, other, k);
    }
  }
}
