/** What a snapshot quorum is: sets of identities, counted once each. */
module QuorumSpec {
  import opened Options
  import opened Texts

  datatype SourceKind = Configured | Seed | Peer

  /** `merge_source_kind`: a seed stays a seed. */
  function Merge(a: SourceKind, b: SourceKind): (k: SourceKind)
    ensures k.Seed? <==> a.Seed? || b.Seed?
    ensures k.Peer? <==> a.Peer? && b.Peer?
  {
    if a.Seed? || b.Seed? then Seed
    else if a.Configured? || b.Configured? then Configured
    else Peer
  }

  datatype Evidence = Evidence(identity: string, endpoint: string, snapshot: string, kind: SourceKind, daa: nat,
                               block: string)

  ghost function AsSet(ev: seq<Evidence>): set<Evidence> {
    set e | e in ev
  }

  function Snap(e: Evidence): string {
    Lower(e.snapshot)
  }

  ghost function Ids(E: set<Evidence>): set<string> {
    set e | e in E :: e.identity
  }

  ghost function SeedIds(E: set<Evidence>): set<string> {
    set e | e in E && e.kind.Seed? :: e.identity
  }

  ghost function Snapshots(E: set<Evidence>): set<string> {
    set e | e in E :: Snap(e)
  }

  /** The identities that report a snapshot. */
  ghost function Supporters(E: set<Evidence>, s: string): set<string> {
    set e | e in E && Snap(e) == s :: e.identity
  }

  /** Those that report it as a seed. */
  ghost function SeedSupporters(E: set<Evidence>, s: string): set<string> {
    set e | e in E && Snap(e) == s && e.kind.Seed? :: e.identity
  }

  ghost function NonSeedSupporters(E: set<Evidence>, s: string): set<string> {
    Supporters(E, s) - SeedSupporters(E, s)
  }

  /** The identities with no seed evidence at all. */
  ghost function NonSeedIds(E: set<Evidence>): set<string> {
    Ids(E) - SeedIds(E)
  }

  predicate RankedBelow(a: Evidence, b: Evidence) {
    a.daa < b.daa || (a.daa == b.daa && Before(a.block, b.block))
  }

  /** No evidence of the same identity for the same snapshot ranks higher. */
  ghost predicate IsTop(E: set<Evidence>, e: Evidence) {
    e in E && forall x :: x in E && x.identity == e.identity && Snap(x) == Snap(e) ==> !RankedBelow(e, x)
  }

  ghost function Tops(E: set<Evidence>, s: string): set<Evidence> {
    set e | e in E && Snap(e) == s && IsTop(E, e)
  }

  lemma {:induction false} HasTop(S: set<Evidence>) returns (m: Evidence)
    requires S != {}
    ensures m in S && forall x :: x in S ==> !RankedBelow(m, x)
  {
    hide Before;
    m :| m in S;
    BeforeTotal(m.block, m.block);
    if S != {m} {
      var n := HasTop(S - {m});
      BeforeTotal(m.block, n.block);
      if RankedBelow(m, n) {
        forall x | x in S ensures !RankedBelow(n, x) {
          if x != m { assert x in S - {m}; }
        }
        m := n;
      } else {
        forall x | x in S ensures !RankedBelow(m, x) {
          if x != m {
            assert x in S - {m};
            RankTotal(n, x); RankTotal(m, x);
            if RankedBelow(m, x) && RankedBelow(x, n) { RankTransitive(m, x, n); }
          }
        }
      }
    }
  }

  lemma RankTotal(a: Evidence, b: Evidence)
    ensures RankedBelow(a, b) || RankedBelow(b, a) || (a.daa == b.daa && a.block == b.block)
    ensures !(RankedBelow(a, b) && RankedBelow(b, a))
  {
    BeforeTotal(a.block, b.block);
  }

  lemma RankTransitive(a: Evidence, b: Evidence, c: Evidence)
    requires RankedBelow(a, b) && RankedBelow(b, c)
    ensures RankedBelow(a, c)
  {
    if Before(a.block, b.block) && Before(b.block, c.block) { BeforeTransitive(a.block, b.block, c.block); }
  }

  lemma TopsExist(E: set<Evidence>, s: string)
    requires s in Snapshots(E)
    ensures Tops(E, s) != {}
  {
    hide RankedBelow, Snap;
    var e :| e in E && Snap(e) == s;
    var S := set x | x in E && x.identity == e.identity && Snap(x) == s;
    assert e in S;
    var m := HasTop(S);
    assert IsTop(E, m);
    assert m in Tops(E, s);
  }

  datatype Candidate = Candidate(snapshot: string, support: nat, seedSupport: nat, nonSeedSupport: nat, bestDaa: nat,
                                 bestBlock: string)

  ghost function Cand(E: set<Evidence>, s: string): Candidate
    requires s in Snapshots(E)
  {
    TopsExist(E, s);
    SeedsSupport(E, s);
    Candidate(s, |Supporters(E, s)|, |SeedSupporters(E, s)|, |NonSeedSupporters(E, s)|,
              LargestDaa(Tops(E, s)), LastBlock(Tops(E, s)))
  }

  ghost function LargestDaa(T: set<Evidence>): nat
    requires T != {}
  {
    var t :| t in T;
    var daas := set e | e in T :: e.daa;
    assert t.daa in daas;
    Largest(daas)
  }

  ghost function LastBlock(T: set<Evidence>): string
    requires T != {}
  {
    var t :| t in T;
    var blocks := set e | e in T :: e.block;
    assert t.block in blocks;
    Last(blocks)
  }

  lemma SeedsSupport(E: set<Evidence>, s: string)
    ensures SeedSupporters(E, s) <= Supporters(E, s)
    ensures |NonSeedSupporters(E, s)| == |Supporters(E, s)| - |SeedSupporters(E, s)|
    ensures SeedIds(E) <= Ids(E) && |NonSeedIds(E)| == |Ids(E)| - |SeedIds(E)|
  {
    var a, b := Supporters(E, s), SeedSupporters(E, s);
    assert b <= a;
    assert a == b + (a - b);
    var i, j := Ids(E), SeedIds(E);
    assert j <= i;
    assert i == j + (i - j);
  }

  /** The order of `candidates.sort_by`, best first. */
  predicate Above(a: Candidate, b: Candidate) {
    if a.support != b.support then a.support > b.support
    else if a.seedSupport != b.seedSupport then a.seedSupport > b.seedSupport
    else if a.nonSeedSupport != b.nonSeedSupport then a.nonSeedSupport > b.nonSeedSupport
    else if a.bestDaa != b.bestDaa then a.bestDaa > b.bestDaa
    else Before(b.bestBlock, a.bestBlock)
  }

  /** The five sort keys are the same. */
  predicate Tie(a: Candidate, b: Candidate) {
    a.support == b.support && a.seedSupport == b.seedSupport && a.nonSeedSupport == b.nonSeedSupport &&
    a.bestDaa == b.bestDaa && a.bestBlock == b.bestBlock
  }

  lemma AboveTotal(a: Candidate, b: Candidate)
    ensures Above(a, b) || Above(b, a) || Tie(a, b)
    ensures !(Above(a, b) && Above(b, a))
    ensures Tie(a, b) ==> !Above(a, b)
  {
    BeforeTotal(a.bestBlock, b.bestBlock);
  }

  lemma AboveTransitive(a: Candidate, b: Candidate, c: Candidate)
    requires !Above(b, a) && !Above(c, b)
    ensures !Above(c, a)
  {
    BeforeTotal(a.bestBlock, b.bestBlock);
    BeforeTotal(b.bestBlock, c.bestBlock);
    BeforeTotal(a.bestBlock, c.bestBlock);
    if Before(c.bestBlock, b.bestBlock) && Before(b.bestBlock, a.bestBlock) {
      BeforeTransitive(c.bestBlock, b.bestBlock, a.bestBlock);
    }
    if Before(a.bestBlock, c.bestBlock) && Before(c.bestBlock, b.bestBlock) {
      BeforeTransitive(a.bestBlock, c.bestBlock, b.bestBlock);
    }
    if Before(b.bestBlock, a.bestBlock) && Before(a.bestBlock, c.bestBlock) {
      BeforeTransitive(b.bestBlock, a.bestBlock, c.bestBlock);
    }
  }

  /** The order of the peer-majority `max_by`. */
  predicate MajorityAbove(a: Candidate, b: Candidate) {
    if a.nonSeedSupport != b.nonSeedSupport then a.nonSeedSupport > b.nonSeedSupport
    else if a.support != b.support then a.support > b.support
    else if a.bestDaa != b.bestDaa then a.bestDaa > b.bestDaa
    else if a.bestBlock != b.bestBlock then Before(b.bestBlock, a.bestBlock)
    else Before(b.snapshot, a.snapshot)
  }

  datatype Policy = Policy(allowFallback: bool, requireSeed: bool, minNonSeed: nat, minPeers: nat)

  function AtLeastOne(n: nat): (r: nat)
    ensures r >= 1 && (n >= 1 ==> r == n) && (n == 0 ==> r == 1)
  {
    if n < 1 then 1 else n
  }

  /** `snapshot_quorum_policy_for_network`. */
  function PolicyForNetwork(mainnet: bool, disableDnsSeeds: bool, allowFallbackOverride: bool, minNonSeed: nat,
                            minPeers: nat): (p: Policy)
    ensures if minNonSeed >= 1 then p.minNonSeed == minNonSeed else p.minNonSeed == 1
    ensures if minPeers >= 1 then p.minPeers == minPeers else p.minPeers == 1
    ensures p.allowFallback <==> !mainnet || allowFallbackOverride
    ensures mainnet <==> p.requireSeed
  {
    if mainnet then Policy(allowFallbackOverride, true, AtLeastOne(minNonSeed), AtLeastOne(minPeers))
    else Policy(true, false, AtLeastOne(minNonSeed), AtLeastOne(minPeers))
  }

  const REQUIRED_SEED_SOURCES: nat := 1

  datatype Decision = Decision(snapshot: string, requiredVotes: nat, seedConfirmed: bool)

  datatype QuorumError =
    | NoCandidates
    | SeedQuorumNotReached
    | FallbackDisabled
    | TooFewNonSeed(seedFailed: bool)
    | MajorityNotReached(seedFailed: bool)

  /** A seed and enough independent non-seed identities report the snapshot. */
  ghost predicate SeedConfirmed(E: set<Evidence>, p: Policy, s: string) {
    && s in Snapshots(E)
    && |SeedSupporters(E, s)| >= REQUIRED_SEED_SOURCES
    && |NonSeedSupporters(E, s)| >= AtLeastOne(p.minNonSeed)
  }

  ghost predicate Leading(E: set<Evidence>, s: string) {
    s in Snapshots(E) && forall t :: t in Snapshots(E) ==> !MajorityAbove(Cand(E, t), Cand(E, s))
  }

  ghost function MajorityVotes(E: set<Evidence>, p: Policy): nat {
    var majority := |NonSeedIds(E)| / 2 + 1;
    if majority > AtLeastOne(p.minPeers) then majority else AtLeastOne(p.minPeers)
  }

  /** The answer of the peer majority when s leads. */
  ghost function MajorityAnswer(E: set<Evidence>, p: Policy, s: string): Result<Decision, QuorumError> {
    if |NonSeedSupporters(E, s)| < MajorityVotes(E, p) then Err(MajorityNotReached(SeedIds(E) != {}))
    else Ok(Decision(s, MajorityVotes(E, p), false))
  }

  /** What `select_snapshot_quorum` may answer. It depends on the evidence as a set, not on
      its order. More than one answer is allowed only when seed-confirmed candidates tie. */
  ghost predicate Allowed(E: set<Evidence>, p: Policy, r: Result<Decision, QuorumError>) {
    if E == {} then r == Err(NoCandidates)
    else if SeedIds(E) != {} && exists s :: SeedConfirmed(E, p, s) then
      && r.Ok? && r.value.seedConfirmed
      && r.value.requiredVotes == REQUIRED_SEED_SOURCES + AtLeastOne(p.minNonSeed)
      && SeedConfirmed(E, p, r.value.snapshot)
      && forall s :: SeedConfirmed(E, p, s) ==> !Above(Cand(E, s), Cand(E, r.value.snapshot))
    else if SeedIds(E) != {} && (p.requireSeed || !p.allowFallback) then r == Err(SeedQuorumNotReached)
    else if !p.allowFallback then r == Err(FallbackDisabled)
    else if |NonSeedIds(E)| < AtLeastOne(p.minPeers) then r == Err(TooFewNonSeed(SeedIds(E) != {}))
    else exists s :: Leading(E, s) && r == MajorityAnswer(E, p, s)
  }
}
