/** What the quorum rules come to in terms of the reports themselves: who wins, and which
    verdict is given when. */
module QuorumMeaning {
  import opened Options
  import opened Texts
  import opened QuorumSpec
  import opened QuorumTheorems

  /** n is the highest score reported for s. */
  ghost predicate HighestScore(E: set<Evidence>, s: string, n: nat) {
    && (exists e :: e in E && Lower(e.snapshot) == s && e.daa == n)
    && (forall e :: e in E && Lower(e.snapshot) == s ==> e.daa <= n)
  }

  /** e has the highest score among the reports of its identity for its snapshot, and the
      last block hash among those with that score. */
  ghost predicate TopReport(E: set<Evidence>, e: Evidence) {
    && e in E
    && forall x :: x in E && x.identity == e.identity && Lower(x.snapshot) == Lower(e.snapshot) ==>
         x.daa < e.daa || (x.daa == e.daa && !Before(e.block, x.block))
  }

  /** b is the last block hash of the top reports for s. */
  ghost predicate HighestBlock(E: set<Evidence>, s: string, b: string) {
    && (exists e :: TopReport(E, e) && Lower(e.snapshot) == s && e.block == b)
    && (forall e :: TopReport(E, e) && Lower(e.snapshot) == s ==> !Before(b, e.block))
  }

  lemma TopIff(E: set<Evidence>, e: Evidence)
    ensures IsTop(E, e) <==> TopReport(E, e)
  {
    hide Before, Lower;
  }

  lemma TopOf(E: set<Evidence>, e: Evidence) returns (m: Evidence)
    requires e in E
    ensures m in Tops(E, Snap(e)) && !RankedBelow(m, e)
  {
    hide RankedBelow, Snap;
    var S := set x | x in E && x.identity == e.identity && Snap(x) == Snap(e);
    assert e in S;
    m := HasTop(S);
    assert IsTop(E, m);
  }

  /** The candidate's rank is that of the reports. */
  lemma CandidateRank(E: set<Evidence>, s: string)
    requires s in Snapshots(E)
    ensures HighestScore(E, s, Cand(E, s).bestDaa) && HighestBlock(E, s, Cand(E, s).bestBlock)
  {
    hide Before, Lower, Supporters, SeedSupporters;
    TopsExist(E, s);
    BestScore(E, s);
    BestBlock(E, s);
  }

  lemma BestScore(E: set<Evidence>, s: string)
    requires s in Snapshots(E) && Tops(E, s) != {}
    ensures HighestScore(E, s, LargestDaa(Tops(E, s)))
  {
    hide Before, Lower, IsTop;
    var daas := set e | e in Tops(E, s) :: e.daa;
    assert LargestDaa(Tops(E, s)) in daas;
    forall e | e in E && Lower(e.snapshot) == s ensures e.daa <= LargestDaa(Tops(E, s)) {
      var m := TopOf(E, e);
      assert m.daa in daas;
    }
  }

  lemma BestBlock(E: set<Evidence>, s: string)
    requires s in Snapshots(E) && Tops(E, s) != {}
    ensures HighestBlock(E, s, LastBlock(Tops(E, s)))
  {
    hide Before, Lower, IsTop, TopReport;
    var blocks := set e | e in Tops(E, s) :: e.block;
    forall e ensures e in Tops(E, s) <==> TopReport(E, e) && Lower(e.snapshot) == s {
      TopIff(E, e);
      TopIsReport(E, e);
    }
    assert LastBlock(Tops(E, s)) in blocks;
    forall e | TopReport(E, e) && Lower(e.snapshot) == s ensures !Before(LastBlock(Tops(E, s)), e.block) {
      assert e.block in blocks;
    }
  }

  lemma TopIsReport(E: set<Evidence>, e: Evidence)
    ensures TopReport(E, e) ==> e in E
  {
  }

  lemma SameScore(E: set<Evidence>, s: string, n: nat, m: nat)
    requires HighestScore(E, s, n) && HighestScore(E, s, m)
    ensures n == m
  {
    hide Lower;
  }

  lemma SameBlock(E: set<Evidence>, s: string, a: string, b: string)
    requires HighestBlock(E, s, a) && HighestBlock(E, s, b)
    ensures a == b
  {
    hide Before, Lower, TopReport;
    BeforeTotal(a, b);
  }

  /** A seed-confirmed answer has the most supporters of all seed-confirmed snapshots; among
      those the most seed supporters; then the highest score; then the last block hash. */
  lemma SeedWinner(E: set<Evidence>, p: Policy, d: Decision, s: string, n: nat, m: nat, a: string, b: string)
    requires Allowed(E, p, Ok(d)) && d.seedConfirmed && SeedConfirmed(E, p, s)
    requires HighestScore(E, s, n) && HighestScore(E, d.snapshot, m)
    requires HighestBlock(E, s, a) && HighestBlock(E, d.snapshot, b)
    ensures var (more, seeds) := (|Supporters(E, d.snapshot)|, |SeedSupporters(E, d.snapshot)|);
            && |Supporters(E, s)| <= more
            && (|Supporters(E, s)| == more ==> |SeedSupporters(E, s)| <= seeds)
            && (|Supporters(E, s)| == more && |SeedSupporters(E, s)| == seeds ==> n <= m && (n == m ==> !Before(b, a)))
  {
    hide Before, Lower, Supporters, SeedSupporters, HighestScore, HighestBlock, Snapshots, Allowed;
    AllowedIsTop(E, p, d);
    SeedsSupport(E, s);
    SeedsSupport(E, d.snapshot);
    CandidateRank(E, s);
    CandidateRank(E, d.snapshot);
    SameScore(E, s, n, Cand(E, s).bestDaa);
    SameScore(E, d.snapshot, m, Cand(E, d.snapshot).bestDaa);
    SameBlock(E, s, a, Cand(E, s).bestBlock);
    SameBlock(E, d.snapshot, b, Cand(E, d.snapshot).bestBlock);
  }

  /** A majority answer has the most non-seed supporters of all snapshots; among those the
      most supporters; then the highest score; then the last block hash; then the last id. */
  lemma MajorityWinner(E: set<Evidence>, p: Policy, d: Decision, s: string, n: nat, m: nat, a: string, b: string)
    requires Allowed(E, p, Ok(d)) && !d.seedConfirmed && s in Snapshots(E)
    requires HighestScore(E, s, n) && HighestScore(E, d.snapshot, m)
    requires HighestBlock(E, s, a) && HighestBlock(E, d.snapshot, b)
    ensures var (votes, more) := (|NonSeedSupporters(E, d.snapshot)|, |Supporters(E, d.snapshot)|);
            && |NonSeedSupporters(E, s)| <= votes
            && (|NonSeedSupporters(E, s)| == votes ==> |Supporters(E, s)| <= more)
            && (|NonSeedSupporters(E, s)| == votes && |Supporters(E, s)| == more ==>
                  n <= m && (n == m ==> !Before(b, a) && (a == b ==> !Before(d.snapshot, s))))
  {
    hide Before, Lower, Supporters, SeedSupporters, NonSeedSupporters, HighestScore, HighestBlock, Snapshots, Allowed;
    MajorityLeads(E, p, d);
    CandidateRank(E, s);
    CandidateRank(E, d.snapshot);
    SameScore(E, s, n, Cand(E, s).bestDaa);
    SameScore(E, d.snapshot, m, Cand(E, d.snapshot).bestDaa);
    SameBlock(E, s, a, Cand(E, s).bestBlock);
    SameBlock(E, d.snapshot, b, Cand(E, d.snapshot).bestBlock);
    BeforeTotal(a, b);
  }

  lemma MajorityLeads(E: set<Evidence>, p: Policy, d: Decision)
    requires Allowed(E, p, Ok(d)) && !d.seedConfirmed
    ensures Leading(E, d.snapshot)
  {
    hide Above, Cand, Snapshots, SeedIds, NonSeedIds, NonSeedSupporters, SeedSupporters, Leading, MajorityVotes;
  }

  /** A majority answer requires the least number of votes that is more than half of the
      non-seed identities and not below the minimum. */
  lemma LeastVotes(E: set<Evidence>, p: Policy, d: Decision)
    requires Allowed(E, p, Ok(d)) && !d.seedConfirmed
    ensures var n, v := |NonSeedIds(E)|, d.requiredVotes;
            && v >= 1 && 2 * v > n && v >= p.minPeers
            && (v == 1 || 2 * (v - 1) <= n || v - 1 < p.minPeers)
  {
    hide Above, Cand, Snapshots, SeedIds, NonSeedIds, NonSeedSupporters, SeedSupporters, Leading, SeedConfirmed;
  }

  /** A seed supports s and so do enough other identities, at least one. */
  ghost predicate Confirms(E: set<Evidence>, p: Policy, s: string) {
    && SeedSupporters(E, s) != {} && NonSeedSupporters(E, s) != {}
    && |NonSeedSupporters(E, s)| >= p.minNonSeed
  }

  /** Enough non-seed supporters of s: more than half of the non-seed identities, and the minimum. */
  ghost predicate HasMajority(E: set<Evidence>, p: Policy, s: string) {
    NonSeedSupporters(E, s) != {} && 2 * |NonSeedSupporters(E, s)| > |NonSeedIds(E)|
    && |NonSeedSupporters(E, s)| >= p.minPeers
  }

  /** Which verdict is given when. The peers are asked only if the policy lets them be asked. */
  lemma Verdict(E: set<Evidence>, p: Policy, r: Result<Decision, QuorumError>)
    requires Allowed(E, p, r)
    ensures var seeds := SeedIds(E) != {};
            var confirmed := exists s :: Confirms(E, p, s);
            var asked := E != {} && !confirmed && p.allowFallback && !(seeds && p.requireSeed);
            var enough := NonSeedIds(E) != {} && |NonSeedIds(E)| >= p.minPeers;
            && (r == Err(NoCandidates) <==> E == {})
            && (r.Ok? && r.value.seedConfirmed <==> confirmed)
            && (r == Err(SeedQuorumNotReached) <==> seeds && !confirmed && (p.requireSeed || !p.allowFallback))
            && (r == Err(FallbackDisabled) <==> E != {} && !seeds && !p.allowFallback)
            && (r == Err(TooFewNonSeed(seeds)) <==> asked && !enough)
            && (r.Ok? && !r.value.seedConfirmed <==> asked && enough && exists s :: HasMajority(E, p, s))
            && (r == Err(MajorityNotReached(seeds)) <==> asked && enough && !exists s :: HasMajority(E, p, s))
  {
    hide Above, Cand, Snapshots, Supporters, SeedSupporters, NonSeedSupporters, Leading, SeedIds, NonSeedIds,
         MajorityVotes, MajorityAnswer, SeedConfirmed, Confirms, HasMajority;
    ConfirmsIff(E, p);
    NoSeedsIn(E);
    forall s ensures Leading(E, s) ==>
                       MajorityAnswer(E, p, s) ==
                         if exists t :: HasMajority(E, p, t) then Ok(Decision(s, MajorityVotes(E, p), false))
                         else Err(MajorityNotReached(SeedIds(E) != {}))
    {
      if Leading(E, s) { LeaderAnswers(E, p, s); }
    }
  }

  lemma LeaderAnswers(E: set<Evidence>, p: Policy, l: string)
    requires Leading(E, l)
    ensures MajorityAnswer(E, p, l) ==
              if exists t :: HasMajority(E, p, t) then Ok(Decision(l, MajorityVotes(E, p), false))
              else Err(MajorityNotReached(SeedIds(E) != {}))
  {
    hide Leading, NonSeedSupporters, SeedIds, MajorityVotes, HasMajority;
    MajorityIff(E, p, l);
    if t :| HasMajority(E, p, t) { LeaderFirst(E, p, l, t); }
  }

  lemma NoSeedsIn(E: set<Evidence>)
    ensures E == {} ==> SeedIds(E) == {}
  {
  }

  lemma ConfirmsIff(E: set<Evidence>, p: Policy)
    ensures forall s :: Confirms(E, p, s) <==> SeedConfirmed(E, p, s)
    ensures (exists s :: Confirms(E, p, s)) <==> (exists s :: SeedConfirmed(E, p, s))
    ensures (exists s :: Confirms(E, p, s)) ==> SeedIds(E) != {}
  {
    hide Snap;
    forall s ensures Confirms(E, p, s) <==> SeedConfirmed(E, p, s) {
      if e :| e in E && Snap(e) == s && e.kind.Seed? {
        assert s in Snapshots(E) && e.identity in SeedSupporters(E, s);
      }
    }
    if s :| Confirms(E, p, s) {
      var e :| e in E && Snap(e) == s && e.kind.Seed?;
      assert e.identity in SeedIds(E);
    }
  }

  lemma MajorityIff(E: set<Evidence>, p: Policy, s: string)
    ensures HasMajority(E, p, s) <==> |NonSeedSupporters(E, s)| >= MajorityVotes(E, p)
  {
    hide NonSeedSupporters, NonSeedIds;
  }

  lemma LeaderFirst(E: set<Evidence>, p: Policy, l: string, s: string)
    requires Leading(E, l)
    ensures HasMajority(E, p, s) ==> HasMajority(E, p, l)
  {
    hide Before, Tops, Supporters, SeedSupporters, Snap;
    if HasMajority(E, p, s) {
      var id :| id in NonSeedSupporters(E, s);
      assert s in Snapshots(E) by { SupportIsReported(E, s, id); }
      assert !MajorityAbove(Cand(E, s), Cand(E, l));
    }
  }

  lemma SupportIsReported(E: set<Evidence>, s: string, id: string)
    requires id in Supporters(E, s)
    ensures s in Snapshots(E)
  {
  }
}
