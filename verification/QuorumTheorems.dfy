/** What an accepted snapshot quorum guarantees. */
module QuorumTheorems {
  import opened Options
  import opened Texts
  import opened QuorumSpec

  /** Support behind any accepted snapshot, counted in distinct identities: a seed and
      the required number of other non-seed ones, or a number of non-seed supporters
      that is more than half of all non-seed identities and at least the minimum. The
      second way is closed to a policy that insists on seeds while one is present. */
  lemma AcceptedIsSupported(E: set<Evidence>, p: Policy, d: Decision)
    requires Allowed(E, p, Ok(d))
    ensures |Supporters(E, d.snapshot)| >= d.requiredVotes
    ensures d.seedConfirmed ==>
              && SeedSupporters(E, d.snapshot) != {}
              && |NonSeedSupporters(E, d.snapshot)| >= AtLeastOne(p.minNonSeed)
              && d.requiredVotes == 1 + AtLeastOne(p.minNonSeed)
    ensures !d.seedConfirmed ==>
              && |NonSeedSupporters(E, d.snapshot)| >= d.requiredVotes
              && 2 * d.requiredVotes > |NonSeedIds(E)|
              && d.requiredVotes >= AtLeastOne(p.minPeers)
              && p.allowFallback && !(p.requireSeed && SeedIds(E) != {})
  {
    hide Above, MajorityAbove, Cand, Supporters, SeedSupporters, SeedIds, Ids, Snapshots;
    SeedsSupport(E, d.snapshot);
  }

  /** On mainnet a snapshot is only accepted with a seed's word while any seed is present,
      and without the override never any other way. */
  lemma StrictOnMainnet(E: set<Evidence>, noDns: bool, override: bool, minNonSeed: nat, minPeers: nat, d: Decision)
    requires Allowed(E, PolicyForNetwork(true, noDns, override, minNonSeed, minPeers), Ok(d))
    ensures SeedIds(E) != {} || !override ==> d.seedConfirmed && SeedSupporters(E, d.snapshot) != {}
  {
    AcceptedIsSupported(E, PolicyForNetwork(true, noDns, override, minNonSeed, minPeers), d);
  }

  /** Reporting the same snapshot again, whatever the kind, label, case, score or block,
      adds no identity, no snapshot and no supporter. At most it turns the identity from a
      non-seed supporter of that snapshot into a seed supporter. */
  lemma RepetitionAddsNoVote(E: set<Evidence>, e: Evidence, again: Evidence)
    requires e in E && again.identity == e.identity && Snap(again) == Snap(e)
    ensures var F := E + {again};
            && Ids(F) == Ids(E) && Snapshots(F) == Snapshots(E)
            && SeedIds(F) == SeedIds(E) + (if again.kind.Seed? then {e.identity} else {})
            && forall s :: Repeated(E, F, again, s)
  {
    hide Snap;
    var F := E + {again};
    assert forall x :: x in F ==> x in E || x == again;
    forall s ensures Repeated(E, F, again, s) {}
  }

  ghost predicate Repeated(E: set<Evidence>, F: set<Evidence>, again: Evidence, s: string) {
    var seeds := if s == Snap(again) && again.kind.Seed? then {again.identity} else {};
    && Supporters(F, s) == Supporters(E, s)
    && SeedSupporters(F, s) == SeedSupporters(E, s) + seeds
    && NonSeedSupporters(F, s) == NonSeedSupporters(E, s) - seeds
  }

  /** Nothing changes at all unless the repetition alone is a seed's. */
  lemma RepetitionAddsNothing(E: set<Evidence>, e: Evidence, again: Evidence)
    requires e in E && again.identity == e.identity && Snap(again) == Snap(e)
    requires again.kind.Seed? ==> e.kind.Seed?
    ensures var F := E + {again};
            && Ids(F) == Ids(E) && SeedIds(F) == SeedIds(E) && Snapshots(F) == Snapshots(E)
            && forall s :: Supporters(F, s) == Supporters(E, s) && SeedSupporters(F, s) == SeedSupporters(E, s)
  {
    hide Snap;
    var F := E + {again};
    assert forall x :: x in F ==> x in E || x == again;
  }

  lemma LeadingUnique(E: set<Evidence>, s: string, t: string)
    requires Leading(E, s) && Leading(E, t)
    ensures s == t
  {
    hide Before, Snapshots;
    var a, b := Cand(E, s), Cand(E, t);
    BeforeTotal(a.bestBlock, b.bestBlock);
    BeforeTotal(s, t);
    assert !MajorityAbove(a, b) && !MajorityAbove(b, a);
  }

  /** The answer does not depend on the order of the evidence: same verdict, same error,
      same number of votes and same winner, except that seed-confirmed candidates
      that tie on all five sort keys may replace each other. */
  lemma OrderDoesNotMatter(ev: seq<Evidence>, ev': seq<Evidence>, p: Policy,
                           r: Result<Decision, QuorumError>, r': Result<Decision, QuorumError>)
    requires multiset(ev) == multiset(ev')
    requires Allowed(AsSet(ev), p, r) && Allowed(AsSet(ev'), p, r')
    ensures r == r' ||
            (var E := AsSet(ev);
             && r.Ok? && r'.Ok? && r.value.seedConfirmed && r'.value.seedConfirmed
             && r.value.requiredVotes == r'.value.requiredVotes
             && r.value.snapshot in Snapshots(E) && r'.value.snapshot in Snapshots(E)
             && Tie(Cand(E, r.value.snapshot), Cand(E, r'.value.snapshot)))
  {
    hide Above, Leading, MajorityVotes, Cand, Snapshots, SeedIds, NonSeedIds, NonSeedSupporters, SeedSupporters;
    var E := AsSet(ev);
    assert E == AsSet(ev') by {
      assert forall e :: e in ev <==> e in multiset(ev);
      assert forall e :: e in ev' <==> e in multiset(ev');
    }
    if r.Ok? && r.value.seedConfirmed && r'.Ok? && r'.value.seedConfirmed {
      AboveTotal(Cand(E, r.value.snapshot), Cand(E, r'.value.snapshot));
    } else if E != {} && !(SeedIds(E) != {} && exists s :: SeedConfirmed(E, p, s)) && p.allowFallback
           && !(SeedIds(E) != {} && p.requireSeed) && |NonSeedIds(E)| >= AtLeastOne(p.minPeers) {
      var s :| Leading(E, s) && r == MajorityAnswer(E, p, s);
      var t :| Leading(E, t) && r' == MajorityAnswer(E, p, t);
      LeadingUnique(E, s, t);
    }
  }

  /** The exception is real: of a seed-confirmed answer, exactly the snapshots that tie with
      the winner are answers too. */
  lemma WinnersTie(E: set<Evidence>, p: Policy, d: Decision, t: string)
    requires Allowed(E, p, Ok(d)) && d.seedConfirmed && d.snapshot in Snapshots(E) && t in Snapshots(E)
    ensures Allowed(E, p, Ok(d.(snapshot := t))) <==> Tie(Cand(E, t), Cand(E, d.snapshot))
  {
    hide Above, Allowed, Top, Snapshots, Supporters, SeedSupporters, Tops;
    AllowedIsTop(E, p, d);
    AllowedIsTop(E, p, d.(snapshot := t));
    TopIsTie(E, p, d.snapshot, t);
  }

  /** A seed-confirmed snapshot that no seed-confirmed one is above. */
  ghost predicate Top(E: set<Evidence>, p: Policy, s: string) {
    SeedConfirmed(E, p, s) && forall t :: SeedConfirmed(E, p, t) ==> !Above(Cand(E, t), Cand(E, s))
  }

  lemma AllowedIsTop(E: set<Evidence>, p: Policy, d: Decision)
    requires d.seedConfirmed
    ensures Allowed(E, p, Ok(d)) <==>
              && SeedIds(E) != {} && Top(E, p, d.snapshot)
              && d.requiredVotes == REQUIRED_SEED_SOURCES + AtLeastOne(p.minNonSeed)
    ensures Top(E, p, d.snapshot) ==> d.snapshot in Snapshots(E)
  {
    hide Above, Cand, SeedSupporters, Supporters, NonSeedIds, Leading;
    if E == {} { assert SeedIds(E) == {}; }
  }

  lemma TopIsTie(E: set<Evidence>, p: Policy, s: string, t: string)
    requires Top(E, p, s) && t in Snapshots(E)
    ensures Top(E, p, t) <==> Tie(Cand(E, t), Cand(E, s))
  {
    hide Above, Snapshots, Supporters, SeedSupporters, Tops;
    var a, b := Cand(E, t), Cand(E, s);
    AboveTotal(a, b);
    if Tie(a, b) {
      forall x | SeedConfirmed(E, p, x) ensures !Above(Cand(E, x), a) { TieRanksAlike(Cand(E, x), a, b); }
    }
  }

  lemma TieRanksAlike(c: Candidate, a: Candidate, b: Candidate)
    requires Tie(a, b)
    ensures Above(c, a) == Above(c, b)
  {
  }

  /** Every identity speaks for one snapshot. */
  ghost predicate OneSnapshotEach(E: set<Evidence>) {
    forall x, y :: x in E && y in E && x.identity == y.identity ==> Snap(x) == Snap(y)
  }

  /** Then no two snapshots can both have a peer majority. */
  lemma MajorityIsUnique(E: set<Evidence>, p: Policy, s: string, t: string)
    requires OneSnapshotEach(E)
    requires |NonSeedSupporters(E, s)| >= MajorityVotes(E, p) && |NonSeedSupporters(E, t)| >= MajorityVotes(E, p)
    ensures s == t
  {
    hide Snap;
    var a, b, all := NonSeedSupporters(E, s), NonSeedSupporters(E, t), NonSeedIds(E);
    if s != t {
      OnlyNonSeeds(E, s);
      OnlyNonSeeds(E, t);
      assert a !! b;
      SubsetSize(a + b, all);
    }
  }

  lemma OnlyNonSeeds(E: set<Evidence>, s: string)
    requires OneSnapshotEach(E)
    ensures NonSeedSupporters(E, s) <= NonSeedIds(E)
  {
    hide Snap;
    assert OneRoleEach(E) by {
      forall x | x in E && x.identity in SeedIds(E) ensures x.identity in SeedSupporters(E, Snap(x)) {
        var y :| y in E && y.kind.Seed? && y.identity == x.identity;
        assert Snap(y) == Snap(x);
      }
    }
    RolesIff(E);
  }

  lemma {:induction false} SubsetSize<T>(a: set<T>, b: set<T>)
    requires a <= b
    ensures |a| <= |b|
  {
    if a != {} {
      var x :| x in a;
      SubsetSize(a - {x}, b - {x});
    }
  }

  /** An identity that is a seed in any report is a seed for each snapshot it reports. */
  ghost predicate OneRoleEach(E: set<Evidence>) {
    forall x :: x in E && x.identity in SeedIds(E) ==> x.identity in SeedSupporters(E, Snap(x))
  }

  /** Whether an identity counts as a seed is decided for each snapshot on its own. The
      votes counted as non-seed all come from non-seed identities, whatever snapshot wins,
      exactly when every identity keeps to one role. */
  lemma RolesIff(E: set<Evidence>)
    ensures OneRoleEach(E) <==> forall s :: NonSeedSupporters(E, s) <= NonSeedIds(E)
  {
    hide Snap;
    if OneRoleEach(E) {
      forall s, id | id in NonSeedSupporters(E, s) ensures id in NonSeedIds(E) {
        var x :| x in E && Snap(x) == s && x.identity == id;
        assert id in Ids(E);
      }
    } else {
      var x :| x in E && x.identity in SeedIds(E) && x.identity !in SeedSupporters(E, Snap(x));
      assert x.identity in NonSeedSupporters(E, Snap(x));
    }
  }

  /** Then the quorum consists of non-seed identities in the sense of all the evidence. */
  lemma QuorumOfNonSeeds(E: set<Evidence>, p: Policy, d: Decision)
    requires Allowed(E, p, Ok(d)) && OneRoleEach(E)
    ensures var voters := Supporters(E, d.snapshot) * NonSeedIds(E);
            if d.seedConfirmed then |voters| >= AtLeastOne(p.minNonSeed)
            else |voters| >= d.requiredVotes && 2 * d.requiredVotes > |NonSeedIds(E)|
  {
    hide Supporters, SeedSupporters, NonSeedIds, Allowed, OneRoleEach;
    AcceptedIsSupported(E, p, d);
    RolesIff(E);
    SubsetSize(NonSeedSupporters(E, d.snapshot), Supporters(E, d.snapshot) * NonSeedIds(E));
  }

  /** Without that, an accepted majority is one of non-seed identities exactly when it is
      still large enough less the voters that are seeds for other snapshots. */
  lemma MajorityOfNonSeedsIff(E: set<Evidence>, p: Policy, d: Decision)
    requires Allowed(E, p, Ok(d)) && !d.seedConfirmed
    ensures var votes := NonSeedSupporters(E, d.snapshot);
            |Supporters(E, d.snapshot) * NonSeedIds(E)| >= d.requiredVotes <==>
              |votes| - |votes * SeedIds(E)| >= d.requiredVotes
  {
    hide Allowed, Snap;
    var votes := NonSeedSupporters(E, d.snapshot);
    var genuine, mixed := Supporters(E, d.snapshot) * NonSeedIds(E), votes * SeedIds(E);
    forall id | id in votes - mixed ensures id in genuine {
      var x :| x in E && Snap(x) == d.snapshot && x.identity == id;
      assert id in Ids(E);
    }
    forall id | id in genuine ensures id in votes - mixed {
      assert id in SeedSupporters(E, d.snapshot) ==> id in SeedIds(E);
    }
    assert votes == genuine + mixed && genuine !! mixed;
  }

  /** Three reports: a is a seed for x and a peer for y, later; b is a peer for z. */
  ghost predicate SeedElsewhere(E: set<Evidence>, ax: Evidence, ay: Evidence, bz: Evidence) {
    && E == {ax, ay, bz}
    && ax.identity == ay.identity != bz.identity
    && ax.kind.Seed? && ay.kind.Peer? && bz.kind.Peer?
    && Snap(ax) != Snap(ay) && Snap(ax) != Snap(bz) && Snap(ay) != Snap(bz)
    && ay.daa > bz.daa
  }

  lemma SeedElsewhereSets(E: set<Evidence>, ax: Evidence, ay: Evidence, bz: Evidence)
    requires SeedElsewhere(E, ax, ay, bz)
    ensures SeedIds(E) == {ax.identity} && NonSeedIds(E) == {bz.identity}
    ensures Snapshots(E) == {Snap(ax), Snap(ay), Snap(bz)}
    ensures NonSeedSupporters(E, Snap(ax)) == {}
    ensures NonSeedSupporters(E, Snap(ay)) == Supporters(E, Snap(ay)) == {ax.identity}
    ensures NonSeedSupporters(E, Snap(bz)) == Supporters(E, Snap(bz)) == {bz.identity}
    ensures SeedSupporters(E, Snap(ay)) == SeedSupporters(E, Snap(bz)) == {}
    ensures ax in E && ax.identity != bz.identity && ay.daa > bz.daa
    ensures Tops(E, Snap(ay)) == {ay} && Tops(E, Snap(bz)) == {bz}
  {
    hide Snap, RankedBelow;
    assert forall e :: e in E <==> e == ax || e == ay || e == bz;
    RankTotal(ay, ay);
    RankTotal(bz, bz);
  }

  /** Then y wins the peer majority, although the only non-seed identity reports z. */
  lemma SeedElsewhereWinsMajority(E: set<Evidence>, ax: Evidence, ay: Evidence, bz: Evidence)
    requires SeedElsewhere(E, ax, ay, bz)
    ensures Allowed(E, Policy(true, false, 1, 1), Ok(Decision(Snap(ay), 1, false)))
    ensures Supporters(E, Snap(ay)) !! NonSeedIds(E)
  {
    hide Snap, SeedElsewhere, SeedIds, NonSeedIds, Snapshots, NonSeedSupporters,
         Supporters, SeedSupporters, Tops, Leading, Cand, SeedConfirmed, Above, MajorityAbove;
    SeedElsewhereSets(E, ax, ay, bz);
    SeedElsewhereLeads(E, ax, ay, bz);
    var p := Policy(true, false, 1, 1);
    forall s ensures !SeedConfirmed(E, p, s) { SeedElsewhereUnconfirmed(E, ax, ay, bz, s); }
    assert MajorityAnswer(E, p, Snap(ay)) == Ok(Decision(Snap(ay), 1, false));
  }

  lemma SeedElsewhereHappens()
    ensures
      var ax := Evidence("a", "a:1", "x", Seed, 5, "p");
      var ay := Evidence("a", "a:2", "y", Peer, 6, "q");
      var bz := Evidence("b", "b:1", "z", Peer, 5, "r");
      SeedElsewhere({ax, ay, bz}, ax, ay, bz)
  {
    assert Lower("x")[0] == 'x' && Lower("y")[0] == 'y' && Lower("z")[0] == 'z';
    assert "a"[0] != "b"[0];
  }

  lemma SeedElsewhereUnconfirmed(E: set<Evidence>, ax: Evidence, ay: Evidence, bz: Evidence, s: string)
    requires SeedElsewhere(E, ax, ay, bz)
    ensures !SeedConfirmed(E, Policy(true, false, 1, 1), s)
  {
    hide Snap, SeedElsewhere, SeedIds, NonSeedIds, Snapshots, NonSeedSupporters, Supporters, SeedSupporters, Tops;
    SeedElsewhereSets(E, ax, ay, bz);
  }

  lemma SeedElsewhereLeads(E: set<Evidence>, ax: Evidence, ay: Evidence, bz: Evidence)
    requires SeedElsewhere(E, ax, ay, bz)
    ensures Leading(E, Snap(ay))
  {
    hide Snap, SeedElsewhere, SeedIds, NonSeedIds, Snapshots, NonSeedSupporters,
         Supporters, SeedSupporters, Tops, LargestDaa, LastBlock, Before;
    SeedElsewhereSets(E, ax, ay, bz);
    var x, y, z := Snap(ax), Snap(ay), Snap(bz);
    OneTop(E, y, ay);
    OneTop(E, z, bz);
    BeforeTotal(y, y);
    BeforeTotal(Cand(E, y).bestBlock, Cand(E, y).bestBlock);
    assert Cand(E, x).nonSeedSupport == 0;
    forall t | t in Snapshots(E) ensures !MajorityAbove(Cand(E, t), Cand(E, y)) {}
  }

  lemma OneTop(E: set<Evidence>, s: string, t: Evidence)
    requires s in Snapshots(E) && Tops(E, s) == {t}
    ensures Cand(E, s).bestDaa == t.daa
  {
    hide Tops, Snapshots, Supporters, SeedSupporters, LastBlock;
    assert (set e | e in {t} :: e.daa) == {t.daa};
  }
}
