/** Which source clients are kept once a snapshot is selected. */
module SnapshotSources {
  import opened Options
  import opened Texts
  import opened QuorumSpec
  import opened QuorumSelect
  import opened QuorumDecide
  import opened QuorumTheorems

  /** A connected source client, with the head it reports. */
  type Source = Evidence

  function Report(s: Source): Evidence {
    s.(snapshot := Lower(s.snapshot))
  }

  function Reports(sources: seq<Source>): (ev: seq<Evidence>)
    ensures |ev| == |sources|
  {
    seq(|sources|, i requires 0 <= i < |sources| => Report(sources[i]))
  }

  lemma ReportSnap(s: Source)
    ensures Snap(Report(s)) == Report(s).snapshot == Lower(s.snapshot)
  {
    LowerTwice(s.snapshot);
  }

  /** The kept clients for s, by position: one per supporting identity, each with the
      identity's highest-ranked head for s and its merged kind. */
  ghost predicate Kept(E: set<Evidence>, s: string, kept: seq<Source>) {
    && Distinct(kept) && Names(kept) == Supporters(E, s)
    && forall j :: 0 <= j < |kept| ==> KeptAt(E, s, kept[j])
  }

  ghost predicate KeptAt(E: set<Evidence>, s: string, k: Source) {
    Lower(k.snapshot) == s && Best(E, Key(k.identity, s), Report(k))
  }

  ghost predicate Indexed(kept: seq<Source>, index: map<string, nat>) {
    && (forall j :: 0 <= j < |kept| ==> kept[j].identity in index && index[kept[j].identity] == j)
    && (forall id :: id in index ==> index[id] < |kept| && kept[index[id]].identity == id)
  }

  lemma IndexedNames(kept: seq<Source>, index: map<string, nat>)
    requires Indexed(kept, index)
    ensures Distinct(kept) && Names(kept) == index.Keys
  {
    forall id | id in index ensures id in Names(kept) { assert kept[index[id]] in kept; }
  }

  lemma SupportersStep(E: set<Evidence>, e: Evidence, s: string)
    ensures Supporters(E + {e}, s) == Supporters(E, s) + if Snap(e) == s then {e.identity} else {}
  {
    hide Snap;
  }

  lemma ElsewhereKept(E: set<Evidence>, e: Evidence, s: string, k: Source)
    requires KeptAt(E, s, k) && Key(k.identity, s) != KeyOf(e)
    ensures KeptAt(E + {e}, s, k)
  {
    BestElsewhere(E, e, Key(k.identity, s), Report(k));
  }

  lemma FirstKept(E: set<Evidence>, source: Source, s: string)
    requires Lower(source.snapshot) == s && source.identity !in Supporters(E, s)
    ensures KeptAt(E + {Report(source)}, s, source)
  {
    var e := Report(source);
    ReportSnap(source);
    assert KeyOf(e) !in Keys(E);
    BestFirst(E, e);
    assert e.(snapshot := Snap(e)) == e;
  }

  lemma MergedKept(E: set<Evidence>, source: Source, s: string, current: Source)
    requires Lower(source.snapshot) == s && KeptAt(E, s, current) && current.identity == source.identity
    ensures RankedBelow(current, source) ==>
              KeptAt(E + {Report(source)}, s, source.(kind := Merge(current.kind, source.kind)))
    ensures !RankedBelow(current, source) ==>
              KeptAt(E + {Report(source)}, s, current.(kind := Merge(current.kind, source.kind)))
  {
    hide Best, Lower;
    var e, v := Report(source), Report(current);
    ReportSnap(source);
    var merged := Merge(current.kind, source.kind);
    assert RankedBelow(v, e) <==> RankedBelow(current, source);
    if RankedBelow(v, e) {
      BestReplaced(E, e, v);
      assert e.(snapshot := Snap(e), kind := merged) == Report(source.(kind := merged));
    } else {
      BestKept(E, e, v);
      assert v.(kind := merged) == Report(current.(kind := merged));
    }
  }

  lemma TakeReport(sources: seq<Source>, i: nat)
    requires i < |sources|
    ensures AsSet(Reports(sources[..i + 1])) == AsSet(Reports(sources[..i])) + {Report(sources[i])}
  {
    assert Reports(sources[..i + 1]) == Reports(sources[..i]) + [Report(sources[i])];
  }

  /** The dedup loop over the clients whose snapshot matches, in place by position. */
  method KeepSources(sources: seq<Source>, s: string) returns (kept: seq<Source>)
    ensures Kept(AsSet(Reports(sources)), s, kept)
    ensures forall j :: 0 <= j < |kept| ==> HighestHead(sources, s, kept[j])
  {
    hide HighestHead, Best, Lower, Snap, RankedBelow, AsSet, Reports, Report, Merge, Supporters, KeyOf, KeptAt;
    kept := [];
    var index: map<string, nat> := map[];
    assert Supporters(AsSet(Reports(sources[..0])), s) == {} by { NoReports(sources[..0], s); }
    for i := 0 to |sources|
      invariant Indexed(kept, index)
      invariant index.Keys == Supporters(AsSet(Reports(sources[..i])), s)
      invariant forall j :: 0 <= j < |kept| ==> KeptAt(AsSet(Reports(sources[..i])), s, kept[j])
    {
      var source := sources[i];
      ghost var E, e := AsSet(Reports(sources[..i])), Report(source);
      TakeReport(sources, i);
      ReportSnap(source);
      SupportersStep(E, e, s);
      ReportKey(source);
      forall j | 0 <= j < |kept| && (kept[j].identity != source.identity || Lower(source.snapshot) != s)
        ensures KeptAt(E + {e}, s, kept[j])
      {
        ElsewhereKept(E, e, s, kept[j]);
      }
      if Lower(source.snapshot) == s {
        if source.identity in index {
          var at := index[source.identity];
          var merged := Merge(kept[at].kind, source.kind);
          MergedKept(E, source, s, kept[at]);
          var preferred := if RankedBelow(kept[at], source) then source else kept[at];
          kept := kept[at := preferred.(kind := merged)];
        } else {
          FirstKept(E, source, s);
          index := index[source.identity := |kept|];
          kept := kept + [source];
        }
      }
    }
    assert sources[..|sources|] == sources;
    IndexedNames(kept, index);
    forall j | 0 <= j < |kept| ensures HighestHead(sources, s, kept[j]) { KeptIsHighest(sources, s, kept[j]); }
  }

  /** No client of the same identity with snapshot s reports a higher score, nor a later block
      with the same score. */
  ghost predicate HighestHead(sources: seq<Source>, s: string, k: Source) {
    && Lower(k.snapshot) == s
    && forall x :: x in sources && x.identity == k.identity && Lower(x.snapshot) == s ==>
         x.daa < k.daa || (x.daa == k.daa && !Before(k.block, x.block))
  }

  lemma KeptIsHighest(sources: seq<Source>, s: string, k: Source)
    requires KeptAt(AsSet(Reports(sources)), s, k)
    ensures HighestHead(sources, s, k)
  {
    hide Before, Lower, Best;
    var E := AsSet(Reports(sources));
    BestOutranks(E, Key(k.identity, s), Report(k));
    forall x | x in sources && x.identity == k.identity && Lower(x.snapshot) == s
      ensures x.daa < k.daa || (x.daa == k.daa && !Before(k.block, x.block))
    {
      var i :| 0 <= i < |sources| && sources[i] == x;
      assert Reports(sources)[i] in E;
      LowerTwice(x.snapshot);
    }
  }

  /** The evidence says of each client what the client says of itself, in lower case. */
  lemma ReportsSay(sources: seq<Source>, s: string)
    ensures Supporters(AsSet(Reports(sources)), s) == set x | x in sources && Lower(x.snapshot) == s :: x.identity
    ensures SeedSupporters(AsSet(Reports(sources)), s) ==
              set x | x in sources && Lower(x.snapshot) == s && x.kind.Seed? :: x.identity
    ensures forall i :: 0 <= i < |sources| ==>
              Reports(sources)[i].daa == sources[i].daa && Reports(sources)[i].block == sources[i].block
  {
    hide Lower;
    var E := AsSet(Reports(sources));
    forall x | x in sources ensures Report(x) in E && Snap(Report(x)) == Lower(x.snapshot) {
      var i :| 0 <= i < |sources| && sources[i] == x;
      assert Reports(sources)[i] in E;
      LowerTwice(x.snapshot);
    }
    forall e | e in E ensures exists x :: x in sources && e == Report(x) {
      var i :| 0 <= i < |sources| && Reports(sources)[i] == e;
      assert sources[i] in sources;
    }
  }

  lemma ReportKey(source: Source)
    ensures Report(source).identity == source.identity
    ensures KeyOf(Report(source)) == Key(source.identity, Lower(source.snapshot))
  {
    ReportSnap(source);
  }

  lemma NoReports(none: seq<Source>, s: string)
    requires none == []
    ensures Supporters(AsSet(Reports(none)), s) == {}
  {
  }

  datatype Selection = Selection(decision: Decision, kept: seq<Source>)

  datatype SelectionError = Quorum(error: QuorumError) | NoSourceRemained

  lemma {:induction false} DecidedSnapshot(E: set<Evidence>, p: Policy, d: Decision)
    requires Allowed(E, p, Ok(d))
    ensures Lower(d.snapshot) == d.snapshot && d.requiredVotes >= 1
  {
    hide Above, Cand, MajorityAbove;
    assert d.snapshot in Snapshots(E);
    var e :| e in E && Snap(e) == d.snapshot;
    LowerTwice(e.snapshot);
  }

  /** Selection succeeds exactly when the quorum does. The kept clients have pairwise
      distinct identities, which are all the identities that support the snapshot. */
  method SelectSnapshotSources(sources: seq<Source>, p: Policy) returns (r: Result<Selection, SelectionError>)
    ensures r.Ok? ==>
              && Allowed(AsSet(Reports(sources)), p, Ok(r.value.decision))
              && Kept(AsSet(Reports(sources)), r.value.decision.snapshot, r.value.kept)
              && |r.value.kept| >= r.value.decision.requiredVotes >= 1
    ensures r.Err? ==> r.error.Quorum? && Allowed(AsSet(Reports(sources)), p, Err(r.error.error))
  {
    hide Allowed, AsSet, Supporters, KeptAt, Lower, Distinct;
    var decision := SelectSnapshotQuorum(Reports(sources), p);
    if decision.Err? {
      return Err(Quorum(decision.error));
    }
    ghost var E := AsSet(Reports(sources));
    DecidedSnapshot(E, p, decision.value);
    AcceptedIsSupported(E, p, decision.value);
    var kept := KeepSources(sources, Lower(decision.value.snapshot));
    NamesCount(kept);
    if kept == [] {
      return Err(NoSourceRemained);
    }
    r := Ok(Selection(decision.value, kept));
  }
}
