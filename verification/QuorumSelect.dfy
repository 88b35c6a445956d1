/** The loops of `select_snapshot_quorum`: deduplication, grouping, ranking, decision. */
module QuorumSelect {
  import opened Texts
  import opened QuorumSpec

  datatype Key = Key(identity: string, snapshot: string)

  function KeyOf(e: Evidence): Key {
    Key(e.identity, Snap(e))
  }

  ghost function Keys(E: set<Evidence>): set<Key> {
    set e | e in E :: KeyOf(e)
  }

  ghost predicate Kinds(E: set<Evidence>, ids: map<string, SourceKind>) {
    ids.Keys == Ids(E) && forall id :: id in ids ==> (ids[id].Seed? <==> id in SeedIds(E))
  }

  ghost predicate ReportedAs(E: set<Evidence>, k: Key, kind: SourceKind) {
    exists x :: x in E && KeyOf(x) == k && x.kind == kind
  }

  /** The kind of all reports under k together: a seed if any is, else configured if any is. */
  ghost function KindUnder(E: set<Evidence>, k: Key): SourceKind {
    if ReportedAs(E, k, Seed) then Seed else if ReportedAs(E, k, Configured) then Configured else Peer
  }

  lemma SeedUnder(E: set<Evidence>, k: Key)
    ensures KindUnder(E, k).Seed? <==> k.identity in SeedSupporters(E, k.snapshot)
  {
    hide Snap;
    if k.identity in SeedSupporters(E, k.snapshot) {
      var x :| x in E && Snap(x) == k.snapshot && x.kind.Seed? && x.identity == k.identity;
      assert KeyOf(x) == k;
    }
  }

  /** v carries the highest rank reported under k, and the kind of all reports under k. */
  ghost predicate Best(E: set<Evidence>, k: Key, v: Evidence) {
    && v.identity == k.identity && v.snapshot == k.snapshot
    && v.kind == KindUnder(E, k)
    && (exists x :: x in E && KeyOf(x) == k && x.daa == v.daa && x.block == v.block)
    && (forall x :: x in E && KeyOf(x) == k ==> !RankedBelow(v, x))
  }

  /** v has the highest score of its identity for its snapshot, and the last block hash among
      the reports with that score. */
  ghost predicate Outranks(E: set<Evidence>, k: Key, v: Evidence) {
    && (exists x :: x in E && x.identity == k.identity && Lower(x.snapshot) == k.snapshot &&
                    x.daa == v.daa && x.block == v.block)
    && (forall x :: x in E && x.identity == k.identity && Lower(x.snapshot) == k.snapshot ==>
          x.daa < v.daa || (x.daa == v.daa && !Before(v.block, x.block)))
  }

  lemma BestOutranks(E: set<Evidence>, k: Key, v: Evidence)
    requires Best(E, k, v)
    ensures Outranks(E, k, v)
  {
    hide Before, Lower, KindUnder;
    assert forall x :: KeyOf(x) == k <==> x.identity == k.identity && Lower(x.snapshot) == k.snapshot;
  }

  ghost predicate Supported(E: set<Evidence>, support: map<Key, Evidence>) {
    support.Keys == Keys(E) && forall k :: k in support ==> Best(E, k, support[k])
  }

  lemma KindsStep(E: set<Evidence>, ids: map<string, SourceKind>, e: Evidence)
    requires Kinds(E, ids)
    ensures Kinds(E + {e}, ids[e.identity := if e.identity in ids then Merge(ids[e.identity], e.kind) else e.kind])
  {
    var F := E + {e};
    assert Ids(F) == Ids(E) + {e.identity};
    assert SeedIds(F) == SeedIds(E) + (if e.kind.Seed? then {e.identity} else {});
    assert e.identity !in ids ==> e.identity !in SeedIds(E);
  }

  lemma KindStep(E: set<Evidence>, e: Evidence, k: Key)
    ensures KindUnder(E + {e}, k) == if k == KeyOf(e) then Merge(KindUnder(E, k), e.kind) else KindUnder(E, k)
  {
    hide KeyOf;
    forall kind ensures ReportedAs(E + {e}, k, kind) <==> ReportedAs(E, k, kind) || (k == KeyOf(e) && e.kind == kind) {
      if ReportedAs(E, k, kind) {
        var x :| x in E && KeyOf(x) == k && x.kind == kind;
        assert x in E + {e};
      }
      if k == KeyOf(e) && e.kind == kind { assert e in E + {e}; }
    }
  }

  lemma BestElsewhere(E: set<Evidence>, e: Evidence, k: Key, v: Evidence)
    requires Best(E, k, v) && k != KeyOf(e)
    ensures Best(E + {e}, k, v)
  {
    hide KeyOf, RankedBelow;
    KindStep(E, e, k);
    var x :| x in E && KeyOf(x) == k && x.daa == v.daa && x.block == v.block;
    assert x in E + {e};
  }

  lemma BestFirst(E: set<Evidence>, e: Evidence)
    requires KeyOf(e) !in Keys(E)
    ensures Best(E + {e}, KeyOf(e), e.(snapshot := Snap(e)))
  {
    hide Snap, RankedBelow;
    KindStep(E, e, KeyOf(e));
    RankTotal(e, e);
    RankIgnoresSnapshot(e, Snap(e), e.kind);
    assert e in E + {e};
    assert KindUnder(E, KeyOf(e)) == Peer by {
      forall x | x in E ensures KeyOf(x) != KeyOf(e) { assert KeyOf(x) in Keys(E); }
    }
    forall x | x in E + {e} && KeyOf(x) == KeyOf(e) ensures x == e {
      assert x in E ==> KeyOf(x) in Keys(E);
    }
  }

  lemma RankIgnoresSnapshot(e: Evidence, s: string, k: SourceKind)
    ensures forall x :: RankedBelow(e.(snapshot := s, kind := k), x) <==> RankedBelow(e, x)
  {
  }

  lemma BestReplaced(E: set<Evidence>, e: Evidence, v: Evidence)
    requires Best(E, KeyOf(e), v) && RankedBelow(v, e)
    ensures Best(E + {e}, KeyOf(e), e.(snapshot := Snap(e), kind := Merge(v.kind, e.kind)))
  {
    hide Snap, RankedBelow;
    KindStep(E, e, KeyOf(e));
    RankIgnoresSnapshot(e, Snap(e), Merge(v.kind, e.kind));
    assert e in E + {e};
    RankTotal(e, e);
    forall x | x in E && KeyOf(x) == KeyOf(e) ensures !RankedBelow(e, x) {
      if RankedBelow(e, x) { RankTransitive(v, e, x); }
    }
  }

  lemma BestKept(E: set<Evidence>, e: Evidence, v: Evidence)
    requires Best(E, KeyOf(e), v) && !RankedBelow(v, e)
    ensures Best(E + {e}, KeyOf(e), v.(kind := Merge(v.kind, e.kind)))
  {
    hide Snap, RankedBelow;
    KindStep(E, e, KeyOf(e));
    RankIgnoresSnapshot(v, v.snapshot, Merge(v.kind, e.kind));
    assert v.(snapshot := v.snapshot, kind := Merge(v.kind, e.kind)) == v.(kind := Merge(v.kind, e.kind));
    var x :| x in E && KeyOf(x) == KeyOf(e) && x.daa == v.daa && x.block == v.block;
    assert x in E + {e};
  }

  lemma SupportedStep(E: set<Evidence>, support: map<Key, Evidence>, e: Evidence, v: Evidence)
    requires Supported(E, support) && Best(E + {e}, KeyOf(e), v)
    ensures Supported(E + {e}, support[KeyOf(e) := v])
  {
    hide Best, KeyOf;
    var after := support[KeyOf(e) := v];
    assert Keys(E + {e}) == Keys(E) + {KeyOf(e)};
    forall k | k in after ensures Best(E + {e}, k, after[k]) {
      if k != KeyOf(e) { BestElsewhere(E, e, k, support[k]); }
    }
  }

  lemma TakeOne(ev: seq<Evidence>, i: nat)
    requires i < |ev|
    ensures AsSet(ev[..i + 1]) == AsSet(ev[..i]) + {ev[i]}
  {
    assert ev[..i + 1] == ev[..i] + [ev[i]];
  }

  /** One pass over the evidence keeps, per identity, the merged kind, and, per identity
      and snapshot, the highest-ranked report with the merged kind. */
  method Dedup(evidence: seq<Evidence>) returns (ids: map<string, SourceKind>, support: map<Key, Evidence>)
    ensures Kinds(AsSet(evidence), ids) && Supported(AsSet(evidence), support)
    ensures forall k :: k in support ==> Outranks(AsSet(evidence), k, support[k])
  {
    hide Snap, RankedBelow, Best, KeyOf, Merge, AsSet, Outranks;
    ids, support := map[], map[];
    assert AsSet(evidence[..0]) == {} by { assert evidence[..0] == []; EmptySet(); }
    for i := 0 to |evidence|
      invariant Kinds(AsSet(evidence[..i]), ids)
      invariant Supported(AsSet(evidence[..i]), support)
    {
      var source := evidence[i];
      ghost var E := AsSet(evidence[..i]);
      TakeOne(evidence, i);
      KindsStep(E, ids, source);
      var kind := if source.identity in ids then Merge(ids[source.identity], source.kind) else source.kind;
      ids := ids[source.identity := kind];
      var key := KeyOf(source);
      var lowered := source.(snapshot := Snap(source));
      if key in support {
        var existing := support[key];
        var merged := Merge(existing.kind, source.kind);
        if RankedBelow(existing, source) {
          BestReplaced(E, source, existing);
          SupportedStep(E, support, source, lowered.(kind := merged));
          support := support[key := lowered.(kind := merged)];
        } else {
          BestKept(E, source, existing);
          SupportedStep(E, support, source, existing.(kind := merged));
          support := support[key := existing.(kind := merged)];
        }
      } else {
        BestFirst(E, source);
        SupportedStep(E, support, source, lowered);
        support := support[key := lowered];
      }
    }
    assert evidence[..|evidence|] == evidence;
    forall k | k in support ensures Outranks(AsSet(evidence), k, support[k]) {
      BestOutranks(AsSet(evidence), k, support[k]);
    }
  }

  lemma EmptySet()
    ensures AsSet([]) == {}
  {
  }

  /** g lists, once each, the kept reports for s among the keys in done. */
  ghost predicate Lists(support: map<Key, Evidence>, done: set<Key>, s: string, g: seq<Evidence>) {
    && (forall j :: 0 <= j < |g| ==>
      Key(g[j].identity, s) in done && Key(g[j].identity, s) in support && support[Key(g[j].identity, s)] == g[j])
    && (forall i, j :: 0 <= i < j < |g| ==> g[i].identity != g[j].identity)
    && (forall k :: k in done && k.snapshot == s ==> exists j :: 0 <= j < |g| && g[j].identity == k.identity)
  }

  ghost predicate Keyed(support: map<Key, Evidence>) {
    forall k :: k in support ==> support[k].identity == k.identity && support[k].snapshot == k.snapshot
  }

  ghost function Grouped(done: set<Key>): set<string> {
    set k | k in done :: k.snapshot
  }

  ghost predicate Groups(support: map<Key, Evidence>, done: set<Key>, groups: map<string, seq<Evidence>>) {
    groups.Keys == Grouped(done) && forall s :: s in groups ==> Lists(support, done, s, groups[s])
  }

  lemma ListsSame(support: map<Key, Evidence>, done: set<Key>, k: Key, s: string, g: seq<Evidence>)
    requires Lists(support, done, s, g) && s != k.snapshot
    ensures Lists(support, done + {k}, s, g)
  {
  }

  lemma ListsMore(support: map<Key, Evidence>, done: set<Key>, k: Key, g: seq<Evidence>)
    requires Keyed(support) && k in support && k !in done
    requires Lists(support, done, k.snapshot, g)
    ensures Lists(support, done + {k}, k.snapshot, g + [support[k]])
  {
    var h := g + [support[k]];
    forall x | x in done + {k} && x.snapshot == k.snapshot
      ensures exists j :: 0 <= j < |h| && h[j].identity == x.identity
    {
      if x == k {
        assert h[|g|].identity == x.identity;
      } else {
        var j :| 0 <= j < |g| && g[j].identity == x.identity;
        assert h[j].identity == x.identity;
      }
    }
  }

  /** Grouping by snapshot, in whatever order the hash map yields its values. */
  method Group(support: map<Key, Evidence>) returns (groups: map<string, seq<Evidence>>)
    requires Keyed(support)
    ensures Groups(support, support.Keys, groups)
  {
    hide Lists;
    groups := map[];
    var rest := support.Keys;
    ghost var done: set<Key> := {};
    while rest != {}
      invariant done !! rest && done + rest == support.Keys
      invariant Groups(support, done, groups)
      decreases rest
    {
      var k :| k in rest;
      var source := support[k];
      var group := if source.snapshot in groups then groups[source.snapshot] else [];
      if source.snapshot !in groups { ListsNone(support, done, k.snapshot); }
      ListsMore(support, done, k, group);
      forall s | s in groups && s != k.snapshot ensures Lists(support, done + {k}, s, groups[s]) {
        ListsSame(support, done, k, s, groups[s]);
      }
      assert Grouped(done + {k}) == Grouped(done) + {k.snapshot};
      groups := groups[source.snapshot := group + [source]];
      done := done + {k};
      rest := rest - {k};
    }
    assert done == support.Keys;
  }

  lemma ListsNone(support: map<Key, Evidence>, done: set<Key>, s: string)
    requires s !in Grouped(done)
    ensures Lists(support, done, s, [])
  {
    assert forall k :: k in done ==> k.snapshot in Grouped(done);
  }

  ghost function SeedNames(g: seq<Evidence>): set<string> {
    set e | e in g && e.kind.Seed? :: e.identity
  }

  ghost function Names(g: seq<Evidence>): set<string> {
    set e | e in g :: e.identity
  }

  predicate Distinct(g: seq<Evidence>) {
    forall i, j :: 0 <= i < j < |g| ==> g[i].identity != g[j].identity
  }

  lemma {:induction false} NamesCount(g: seq<Evidence>)
    requires Distinct(g)
    ensures |Names(g)| == |g|
  {
    if g != [] {
      var h, e := g[..|g| - 1], g[|g| - 1];
      assert g == h + [e];
      NamesCount(h);
      assert Names(g) == Names(h) + {e.identity};
    }
  }

  /** c summarises a group: its size, its seeds, its largest score and last block hash. */
  ghost predicate Summary(s: string, g: seq<Evidence>, c: Candidate) {
    && c.snapshot == s && c.support == |g|
    && c.seedSupport == |SeedNames(g)| && c.nonSeedSupport == |g| - |SeedNames(g)|
    && (exists j :: 0 <= j < |g| && g[j].daa == c.bestDaa) && (forall j :: 0 <= j < |g| ==> g[j].daa <= c.bestDaa)
    && (exists j :: 0 <= j < |g| && g[j].block == c.bestBlock)
    && (forall j :: 0 <= j < |g| ==> !Before(c.bestBlock, g[j].block))
  }

  lemma SummaryStep(s: string, g: seq<Evidence>, c: Candidate, e: Evidence)
    requires Summary(s, g, c) && Distinct(g + [e])
    ensures Summary(s, g + [e], Candidate(s, c.support + 1,
              c.seedSupport + (if e.kind.Seed? then 1 else 0), c.nonSeedSupport + (if e.kind.Seed? then 0 else 1),
              if e.daa > c.bestDaa then e.daa else c.bestDaa,
              if Before(c.bestBlock, e.block) then e.block else c.bestBlock))
  {
    hide Before;
    var h := g + [e];
    assert forall j :: 0 <= j < |g| ==> h[j] == g[j];
    assert h[|g|] == e;
    SeedNamesStep(g, e);
    BeforeTotal(e.block, e.block);
    forall j | 0 <= j < |h| ensures Before(c.bestBlock, e.block) ==> !Before(e.block, h[j].block) {
      if Before(c.bestBlock, e.block) && Before(e.block, h[j].block) && j < |g| {
        BeforeTransitive(c.bestBlock, e.block, h[j].block);
      }
    }
    hide SeedNames;
  }

  lemma SeedNamesStep(g: seq<Evidence>, e: Evidence)
    requires Distinct(g + [e])
    ensures |SeedNames(g + [e])| == |SeedNames(g)| + if e.kind.Seed? then 1 else 0
  {
    var h := g + [e];
    assert forall j :: 0 <= j < |g| ==> h[j] == g[j];
    assert h[|g|] == e;
    assert SeedNames(h) == SeedNames(g) + if e.kind.Seed? then {e.identity} else {};
  }

  lemma SummaryOne(s: string, e: Evidence)
    ensures var n := if e.kind.Seed? then 1 else 0; Summary(s, [e], Candidate(s, 1, n, 1 - n, e.daa, e.block))
  {
    assert SeedNames([e]) == if e.kind.Seed? then {e.identity} else {};
    BeforeTotal(e.block, e.block);
    assert [e][0] == e;
  }

  method Summarise(s: string, g: seq<Evidence>) returns (c: Candidate)
    requires g != [] && Distinct(g)
    ensures Summary(s, g, c)
  {
    hide Summary, Before;
    var n := if g[0].kind.Seed? then 1 else 0;
    c := Candidate(s, 1, n, 1 - n, g[0].daa, g[0].block);
    SummaryOne(s, g[0]);
    assert g[..1] == [g[0]];
    for i := 1 to |g|
      invariant Summary(s, g[..i], c) && c.snapshot == s
    {
      var e := g[i];
      assert g[..i + 1] == g[..i] + [e];
      SummaryStep(s, g[..i], c, e);
      c := Candidate(s, c.support + 1,
                     c.seedSupport + (if e.kind.Seed? then 1 else 0),
                     c.nonSeedSupport + (if e.kind.Seed? then 0 else 1),
                     if e.daa > c.bestDaa then e.daa else c.bestDaa,
                     if Before(c.bestBlock, e.block) then e.block else c.bestBlock);
    }
    assert g[..|g|] == g;
  }

  lemma GroupNames(E: set<Evidence>, support: map<Key, Evidence>, s: string, g: seq<Evidence>)
    requires Supported(E, support) && Lists(support, support.Keys, s, g)
    ensures Names(g) == Supporters(E, s) && SeedNames(g) == SeedSupporters(E, s)
  {
    hide Snap, RankedBelow, KindUnder;
    forall id | id in Supporters(E, s) ensures id in Names(g) {
      var e :| e in E && Snap(e) == s && e.identity == id;
      assert KeyOf(e) in support;
      var j :| 0 <= j < |g| && g[j].identity == KeyOf(e).identity;
      assert g[j] in g;
    }
    forall j | 0 <= j < |g|
      ensures g[j].identity in Supporters(E, s) && (g[j].kind.Seed? <==> g[j].identity in SeedSupporters(E, s))
    {
      GroupMember(E, support, s, g, j);
      SeedUnder(E, Key(g[j].identity, s));
    }
    forall id | id in SeedSupporters(E, s) ensures id in SeedNames(g) {
      SeedsSupport(E, s);
      var e :| e in g && e.identity == id;
    }
  }

  lemma GroupMember(E: set<Evidence>, support: map<Key, Evidence>, s: string, g: seq<Evidence>, j: nat)
    requires Supported(E, support) && Lists(support, support.Keys, s, g) && j < |g|
    ensures Best(E, Key(g[j].identity, s), g[j])
    ensures g[j].identity in Supporters(E, s)
  {
    hide Snap, RankedBelow;
    var k := Key(g[j].identity, s);
    assert Best(E, k, support[k]);
    var x :| x in E && KeyOf(x) == k && x.daa == g[j].daa && x.block == g[j].block;
    assert x.identity in Supporters(E, s);
  }

  /** A kept report has the rank of the top reports of its identity for s. */
  lemma BestIsTop(E: set<Evidence>, k: Key, v: Evidence)
    requires Best(E, k, v)
    ensures exists t :: t in Tops(E, k.snapshot) && t.identity == k.identity && t.daa == v.daa && t.block == v.block
    ensures forall t :: t in Tops(E, k.snapshot) && t.identity == k.identity ==> t.daa == v.daa && t.block == v.block
  {
    hide Snap, RankedBelow;
    var x :| x in E && KeyOf(x) == k && x.daa == v.daa && x.block == v.block;
    forall y | y in E && KeyOf(y) == k ensures !RankedBelow(x, y) { SameRank(v, x, y); }
    assert IsTop(E, x);
    assert x in Tops(E, k.snapshot);
    forall t | t in Tops(E, k.snapshot) && t.identity == k.identity ensures t.daa == v.daa && t.block == v.block {
      assert KeyOf(t) == k;
      RankTotal(t, x);
    }
  }

  lemma SameRank(v: Evidence, x: Evidence, y: Evidence)
    requires x.daa == v.daa && x.block == v.block
    ensures RankedBelow(x, y) == RankedBelow(v, y)
  {
  }

  lemma SummaryIsCandidate(E: set<Evidence>, support: map<Key, Evidence>, s: string, g: seq<Evidence>, c: Candidate)
    requires Supported(E, support) && Lists(support, support.Keys, s, g) && Summary(s, g, c)
    ensures s in Snapshots(E) && c == Cand(E, s)
  {
    hide Snap, RankedBelow, Best, Supported, Before, IsTop,
         Tops, Names, SeedNames, Supporters, SeedSupporters, Snapshots, LargestDaa, LastBlock;
    GroupNames(E, support, s, g);
    NamesCount(g);
    GroupMember(E, support, s, g, 0);
    SupportersOf(E, s);
    SeedsSupport(E, s);
    TopRanks(E, support, s, g, c);
    LargestDaaIs(Tops(E, s), c.bestDaa);
    LastBlockIs(Tops(E, s), c.bestBlock);
  }

  lemma SupportersOf(E: set<Evidence>, s: string)
    requires Supporters(E, s) != {}
    ensures s in Snapshots(E)
  {
  }

  lemma LargestDaaIs(T: set<Evidence>, n: nat)
    requires (exists t :: t in T && t.daa == n) && (forall t :: t in T ==> t.daa <= n)
    ensures T != {} && LargestDaa(T) == n
  {
    var t :| t in T && t.daa == n;
    var daas := set e | e in T :: e.daa;
    assert n in daas;
    assert Largest(daas) in daas;
  }

  lemma LastBlockIs(T: set<Evidence>, b: string)
    requires (exists t :: t in T && t.block == b) && (forall t :: t in T ==> !Before(b, t.block))
    ensures T != {} && LastBlock(T) == b
  {
    hide Before;
    var t :| t in T && t.block == b;
    var blocks := set e | e in T :: e.block;
    assert b in blocks;
    assert Last(blocks) in blocks;
    BeforeTotal(b, Last(blocks));
  }

  lemma TopRanks(E: set<Evidence>, support: map<Key, Evidence>, s: string, g: seq<Evidence>, c: Candidate)
    requires Supported(E, support) && Lists(support, support.Keys, s, g) && Summary(s, g, c)
    ensures (exists t :: t in Tops(E, s) && t.daa == c.bestDaa) && (forall t :: t in Tops(E, s) ==> t.daa <= c.bestDaa)
    ensures (exists t :: t in Tops(E, s) && t.block == c.bestBlock) &&
            (forall t :: t in Tops(E, s) ==> !Before(c.bestBlock, t.block))
  {
    hide Snap, RankedBelow, Best, Supported, Before, IsTop, Tops, SeedNames;
    forall j | 0 <= j < |g|
      ensures exists t :: t in Tops(E, s) && t.identity == g[j].identity && t.daa == g[j].daa && t.block == g[j].block
      ensures forall t :: t in Tops(E, s) && t.identity == g[j].identity ==> t.daa == g[j].daa && t.block == g[j].block
    {
      GroupMember(E, support, s, g, j);
      BestIsTop(E, Key(g[j].identity, s), g[j]);
    }
    forall t | t in Tops(E, s)
      ensures exists j :: 0 <= j < |g| && g[j].identity == t.identity
    {
      TopIsListed(E, support, s, g, t);
    }
  }

  lemma TopIsListed(E: set<Evidence>, support: map<Key, Evidence>, s: string, g: seq<Evidence>, t: Evidence)
    requires Supported(E, support) && Lists(support, support.Keys, s, g) && t in Tops(E, s)
    ensures exists j :: 0 <= j < |g| && g[j].identity == t.identity
  {
    hide Snap, IsTop, Best;
    assert KeyOf(t) in Keys(E);
    assert KeyOf(t).identity == t.identity && KeyOf(t).snapshot == s;
  }
}
