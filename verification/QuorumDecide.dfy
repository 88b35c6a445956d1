/** The second half of `select_snapshot_quorum`: ranking the candidates and deciding. */
module QuorumDecide {
  import opened Options
  import opened Texts
  import opened QuorumSpec
  import opened QuorumSelect

  ghost function SeedKeys(ids: map<string, SourceKind>): set<string> {
    set id | id in ids && ids[id].Seed?
  }

  method CountSeeds(ids: map<string, SourceKind>) returns (n: nat)
    ensures n == |SeedKeys(ids)|
  {
    n := 0;
    var rest := ids.Keys;
    ghost var seen: set<string> := {};
    while rest != {}
      invariant seen !! rest && seen + rest == ids.Keys
      invariant n == |SeedKeys(ids) * seen|
      decreases rest
    {
      var id :| id in rest;
      if ids[id].Seed? {
        assert SeedKeys(ids) * (seen + {id}) == SeedKeys(ids) * seen + {id};
        n := n + 1;
      } else {
        assert SeedKeys(ids) * (seen + {id}) == SeedKeys(ids) * seen;
      }
      seen := seen + {id};
      rest := rest - {id};
    }
    assert SeedKeys(ids) * seen == SeedKeys(ids);
  }

  /** cs holds the candidates of the snapshots in done, and nothing else. */
  ghost predicate Covers(E: set<Evidence>, done: set<string>, cs: seq<Candidate>)
    requires done <= Snapshots(E)
  {
    && (forall c :: c in cs ==> c.snapshot in done && c == Cand(E, c.snapshot))
    && (forall s :: s in done ==> Cand(E, s) in cs)
  }

  lemma GroupedAll(E: set<Evidence>)
    ensures Grouped(Keys(E)) == Snapshots(E)
  {
    hide Snap;
    forall s | s in Snapshots(E) ensures s in Grouped(Keys(E)) {
      var e :| e in E && Snap(e) == s;
      assert KeyOf(e) in Keys(E);
    }
  }

  lemma ListsDistinct(support: map<Key, Evidence>, s: string, g: seq<Evidence>)
    requires Lists(support, support.Keys, s, g) && s in Grouped(support.Keys)
    ensures Distinct(g) && g != []
  {
    var k :| k in support.Keys && k.snapshot == s;
  }

  /** The candidates, in whatever order the hash map yields the groups. */
  method AllCandidates(groups: map<string, seq<Evidence>>, ghost E: set<Evidence>, ghost support: map<Key, Evidence>)
    returns (cs: seq<Candidate>)
    requires Supported(E, support) && Groups(support, support.Keys, groups)
    ensures Covers(E, Snapshots(E), cs)
  {
    hide Summary, Lists, Snapshots, Cand, Grouped, Best, Keys;
    GroupedAll(E);
    cs := [];
    var rest := groups.Keys;
    ghost var done: set<string> := {};
    while rest != {}
      invariant done !! rest && done + rest == groups.Keys == Snapshots(E)
      invariant Covers(E, done, cs)
      decreases rest
    {
      var s :| s in rest;
      ListsDistinct(support, s, groups[s]);
      var c := Summarise(s, groups[s]);
      SummaryIsCandidate(E, support, s, groups[s], c);
      assert c.snapshot == s by { CandSnapshot(E, s); }
      cs := cs + [c];
      done := done + {s};
      rest := rest - {s};
    }
    assert done == Snapshots(E);
  }

  lemma CandSnapshot(E: set<Evidence>, s: string)
    requires s in Snapshots(E)
    ensures Cand(E, s).snapshot == s
  {
  }

  ghost predicate Sorted(cs: seq<Candidate>) {
    forall i, j :: 0 <= i < j < |cs| ==> !Above(cs[j], cs[i])
  }

  method Insert(cs: seq<Candidate>, c: Candidate) returns (r: seq<Candidate>)
    requires Sorted(cs)
    ensures Sorted(r) && multiset(r) == multiset(cs) + multiset{c}
  {
    hide Above;
    var p := |cs|;
    while p > 0 && Above(c, cs[p - 1])
      invariant 0 <= p <= |cs|
      invariant forall j :: p <= j < |cs| ==> Above(c, cs[j])
    {
      p := p - 1;
    }
    r := cs[..p] + [c] + cs[p..];
    forall i | 0 <= i < p ensures !Above(c, cs[i]) {
      if i < p - 1 { AboveTransitive(cs[i], cs[p - 1], c); }
    }
    forall j | p <= j < |cs| ensures !Above(cs[j], c) { AboveTotal(cs[j], c); }
    assert cs == cs[..p] + cs[p..];
  }

  /** The stable `sort_by`, best candidate first. */
  method Sort(cs: seq<Candidate>) returns (r: seq<Candidate>)
    ensures Sorted(r) && multiset(r) == multiset(cs)
  {
    hide Above;
    r := [];
    for i := 0 to |cs|
      invariant Sorted(r) && multiset(r) == multiset(cs[..i])
    {
      r := Insert(r, cs[i]);
      assert cs[..i + 1] == cs[..i] + [cs[i]];
    }
    assert cs[..|cs|] == cs;
  }

  predicate Qualifies(p: Policy, c: Candidate) {
    c.seedSupport >= REQUIRED_SEED_SOURCES && c.nonSeedSupport >= AtLeastOne(p.minNonSeed)
  }

  /** `find`: the first candidate in the sorted list that qualifies. */
  method FindQualified(cs: seq<Candidate>, p: Policy) returns (r: Option<Candidate>)
    requires Sorted(cs)
    ensures r.None? ==> forall c :: c in cs ==> !Qualifies(p, c)
    ensures r.Some? ==>
              && r.value in cs && Qualifies(p, r.value)
              && forall c :: c in cs && Qualifies(p, c) ==> !Above(c, r.value)
  {
    hide Above;
    for i := 0 to |cs|
      invariant forall j :: 0 <= j < i ==> !Qualifies(p, cs[j])
    {
      if Qualifies(p, cs[i]) {
        AboveTotal(cs[i], cs[i]);
        return Some(cs[i]);
      }
    }
    r := None;
  }

  lemma MajorityOrder(a: Candidate, b: Candidate, c: Candidate)
    requires !MajorityAbove(a, b) && !MajorityAbove(b, c)
    ensures !MajorityAbove(a, c)
  {
    hide Before;
    TextOrder(a.bestBlock, b.bestBlock, c.bestBlock);
    TextOrder(a.snapshot, b.snapshot, c.snapshot);
  }

  lemma TextOrder(a: string, b: string, c: string)
    ensures !Before(b, a) && !Before(c, b) ==> !Before(c, a)
    ensures !Before(b, a) && !Before(c, b) && a == c ==> a == b
  {
    hide Before;
    BeforeTotal(a, b);
    BeforeTotal(b, c);
    BeforeTotal(a, c);
    if Before(c, a) && Before(a, b) { BeforeTransitive(c, a, b); }
  }

  lemma MajorityTotal(a: Candidate, b: Candidate)
    ensures !(MajorityAbove(a, b) && MajorityAbove(b, a))
  {
    BeforeTotal(a.bestBlock, b.bestBlock);
    BeforeTotal(a.snapshot, b.snapshot);
  }

  /** `max_by`: the last of the greatest. */
  method Leader(cs: seq<Candidate>) returns (best: Candidate)
    requires cs != []
    ensures best in cs && forall c :: c in cs ==> !MajorityAbove(c, best)
  {
    hide MajorityAbove;
    best := cs[0];
    MajorityTotal(best, best);
    for i := 1 to |cs|
      invariant best in cs && forall j :: 0 <= j < i ==> !MajorityAbove(cs[j], best)
    {
      MajorityTotal(best, cs[i]);
      MajorityTotal(cs[i], cs[i]);
      if !MajorityAbove(best, cs[i]) {
        forall j | 0 <= j < i ensures !MajorityAbove(cs[j], cs[i]) { MajorityOrder(cs[j], best, cs[i]); }
        best := cs[i];
      }
    }
  }

  lemma Totals(E: set<Evidence>, ids: map<string, SourceKind>)
    requires Kinds(E, ids)
    ensures SeedKeys(ids) == SeedIds(E) && |ids| - |SeedKeys(ids)| == |NonSeedIds(E)|
  {
    SeedsSupport(E, "");
    assert SeedKeys(ids) == SeedIds(E);
    assert |ids| == |ids.Keys|;
  }

  lemma Confirmed(E: set<Evidence>, p: Policy, s: string)
    requires s in Snapshots(E)
    ensures SeedConfirmed(E, p, s) <==> Qualifies(p, Cand(E, s))
  {
  }

  lemma NoSnapshots(E: set<Evidence>)
    ensures Snapshots(E) == {} <==> E == {}
  {
    if e :| e in E { assert Snap(e) in Snapshots(E); }
  }

  lemma SupportedKeyed(E: set<Evidence>, support: map<Key, Evidence>)
    requires Supported(E, support)
    ensures Keyed(support)
  {
    assert forall k :: k in support ==> Best(E, k, support[k]);
  }

  lemma SameMembers(a: seq<Candidate>, b: seq<Candidate>)
    requires multiset(a) == multiset(b)
    ensures forall c :: c in a <==> c in b
  {
    assert forall c :: c in a <==> c in multiset(a);
    assert forall c :: c in b <==> c in multiset(b);
  }

  lemma QualifiedIsBest(E: set<Evidence>, p: Policy, cs: seq<Candidate>, best: Candidate)
    requires Covers(E, Snapshots(E), cs) && best in cs && Qualifies(p, best)
    requires forall c :: c in cs && Qualifies(p, c) ==> !Above(c, best)
    ensures SeedConfirmed(E, p, best.snapshot)
    ensures forall s :: SeedConfirmed(E, p, s) ==> !Above(Cand(E, s), Cand(E, best.snapshot))
  {
    hide Snapshots, Cand, Above, Qualifies;
    Confirmed(E, p, best.snapshot);
    forall s | SeedConfirmed(E, p, s) ensures !Above(Cand(E, s), best) { Confirmed(E, p, s); }
  }

  lemma NoneQualified(E: set<Evidence>, p: Policy, cs: seq<Candidate>)
    requires Covers(E, Snapshots(E), cs) && forall c :: c in cs ==> !Qualifies(p, c)
    ensures !exists s :: SeedConfirmed(E, p, s)
  {
    hide Snapshots, Cand, Qualifies;
    forall s ensures !SeedConfirmed(E, p, s) {
      if s in Snapshots(E) { Confirmed(E, p, s); }
    }
  }

  lemma LeaderLeads(E: set<Evidence>, cs: seq<Candidate>, best: Candidate)
    requires Covers(E, Snapshots(E), cs) && best in cs && forall c :: c in cs ==> !MajorityAbove(c, best)
    ensures Leading(E, best.snapshot) && best.nonSeedSupport == |NonSeedSupporters(E, best.snapshot)|
  {
    hide Snapshots, MajorityAbove, NonSeedSupporters;
    assert best == Cand(E, best.snapshot);
  }

  lemma NoneCovered(E: set<Evidence>)
    ensures Covers(E, Snapshots(E), []) <==> Snapshots(E) == {}
  {
    hide Cand, Snapshots;
    if s :| s in Snapshots(E) { assert Cand(E, s) !in []; }
  }

  /** The decision is one the quorum rules allow, whatever order the hash maps are read in. */
  method SelectSnapshotQuorum(evidence: seq<Evidence>, p: Policy) returns (r: Result<Decision, QuorumError>)
    ensures Allowed(AsSet(evidence), p, r)
  {
    hide Snapshots, Cand, Above, MajorityAbove, SeedConfirmed,
         Qualifies, Leading, Supported, Kinds, SeedIds, NonSeedIds, NonSeedSupporters, AsSet, SeedKeys;
    ghost var E := AsSet(evidence);
    var ids, support := Dedup(evidence);
    SupportedKeyed(E, support);
    var groups := Group(support);
    var totalSeeds := CountSeeds(ids);
    Totals(E, ids);
    var totalNonSeeds := |ids| - totalSeeds;
    var unsorted := AllCandidates(groups, E, support);
    NoSnapshots(E);
    if unsorted == [] {
      NoneCovered(E);
      return Err(NoCandidates);
    }
    assert E != {} by { var c := unsorted[0]; assert c in unsorted; }
    var candidates := Sort(unsorted);
    assert Covers(E, Snapshots(E), candidates) by { SameMembers(unsorted, candidates); }
    if totalSeeds > 0 {
      var selected := FindQualified(candidates, p);
      if selected.Some? {
        QualifiedIsBest(E, p, candidates, selected.value);
        return Ok(Decision(selected.value.snapshot, REQUIRED_SEED_SOURCES + AtLeastOne(p.minNonSeed), true));
      }
      NoneQualified(E, p, candidates);
    }
    if p.requireSeed && totalSeeds > 0 {
      return Err(SeedQuorumNotReached);
    }
    if !p.allowFallback {
      return Err(if totalSeeds > 0 then SeedQuorumNotReached else FallbackDisabled);
    }
    if totalNonSeeds < AtLeastOne(p.minPeers) {
      return Err(TooFewNonSeed(totalSeeds > 0));
    }
    var majority := totalNonSeeds / 2 + 1;
    var requiredVotes := if majority > AtLeastOne(p.minPeers) then majority else AtLeastOne(p.minPeers);
    var selected := Leader(candidates);
    LeaderLeads(E, candidates, selected);
    if selected.nonSeedSupport < requiredVotes {
      r := Err(MajorityNotReached(totalSeeds > 0));
    } else {
      r := Ok(Decision(selected.snapshot, requiredVotes, false));
    }
    assert r == MajorityAnswer(E, p, selected.snapshot);
  }
}
