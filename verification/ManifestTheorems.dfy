/** What an accepted manifest guarantees, from source selection to the vote. */
module ManifestTheorems {
  import opened Options
  import opened ByteKeys
  import Hex
  import opened QuorumSpec
  import opened QuorumSelect
  import opened SnapshotSources
  import opened ManifestQuorum

  lemma WinnerUnique(ms: seq<Option<Bytes>>, h: Hash, a: Bytes, b: Bytes)
    requires Winner(ms, h, a) && Winner(ms, h, b)
    ensures a == b
  {
    hide Less, Voters, VoteKeys;
    assert !Preferred(ms, h, a, b) && !Preferred(ms, h, b, a);
    LessTotal(a, b);
  }

  /** The outcome of the vote does not depend on the order of the hash map. */
  lemma OutcomeUnique(ms: seq<Option<Bytes>>, h: Hash, required: nat, r: Result<Bytes, ManifestError>,
                      q: Result<Bytes, ManifestError>)
    requires Outcome(ms, h, required, r) && Outcome(ms, h, required, q)
    ensures r == q
  {
    hide Winner, Voters, VoteKeys;
    if VoteKeys(ms, h) != {} {
      var k :| Winner(ms, h, k) &&
        if |Voters(ms, h, k)| < required then r == Err(VotesMissing) else r.Ok? && FirstFor(ms, h, k, r.value);
      var l :| Winner(ms, h, l) &&
        if |Voters(ms, h, l)| < required then q == Err(VotesMissing) else q.Ok? && FirstFor(ms, h, l, q.value);
      WinnerUnique(ms, h, k, l);
    }
  }

  ghost predicate NoCollision(ms: seq<Option<Bytes>>, h: Hash) {
    forall i, j :: 0 <= i < |ms| && 0 <= j < |ms| && ms[i].Some? && ms[j].Some? && h(ms[i].value) == h(ms[j].value) ==>
      ms[i] == ms[j]
  }

  /** The sources that returned the manifest b. */
  ghost function Returned(ms: seq<Option<Bytes>>, b: Bytes): set<nat> {
    set i | 0 <= i < |ms| && ms[i] == Some(b)
  }

  lemma VotersReturned(ms: seq<Option<Bytes>>, h: Hash, b: Bytes)
    requires NoCollision(ms, h) && Returned(ms, b) != {}
    ensures Voters(ms, h, h(b)) == Returned(ms, b)
  {
  }

  lemma FirstForReturned(ms: seq<Option<Bytes>>, h: Hash, k: Bytes, b: Bytes)
    requires FirstFor(ms, h, k, b)
    ensures h(b) == k && Returned(ms, b) != {}
  {
    var i :| i in Voters(ms, h, k) && ms[i] == Some(b) && forall j :: j in Voters(ms, h, k) ==> i <= j;
    assert i in Returned(ms, b);
  }

  /** An accepted manifest was returned by at least the required number of sources. */
  lemma AcceptedIsReturned(ms: seq<Option<Bytes>>, h: Hash, required: nat, b: Bytes)
    requires Outcome(ms, h, required, Ok(b)) && NoCollision(ms, h)
    ensures |Returned(ms, b)| >= required && Returned(ms, b) != {}
  {
    hide Winner, Voters, VoteKeys, NoCollision, Returned, FirstFor;
    var k :| Winner(ms, h, k) && |Voters(ms, h, k)| >= required && FirstFor(ms, h, k, b);
    FirstForReturned(ms, h, k, b);
    VotersReturned(ms, h, b);
  }

  /** Some manifest is accepted exactly when enough sources returned the same one. */
  lemma AcceptedIff(ms: seq<Option<Bytes>>, h: Hash, required: nat, r: Result<Bytes, ManifestError>)
    requires Outcome(ms, h, required, r) && NoCollision(ms, h)
    ensures r.Ok? <==> exists b :: Returned(ms, b) != {} && |Returned(ms, b)| >= required
  {
    hide Winner, Voters, VoteKeys, NoCollision, Returned, FirstFor;
    if r.Ok? {
      AcceptedIsReturned(ms, h, required, r.value);
    } else if b :| Returned(ms, b) != {} && |Returned(ms, b)| >= required {
      VotersReturned(ms, h, b);
      ReturnedIsKey(ms, h, b);
      var k :| Winner(ms, h, k) && |Voters(ms, h, k)| < required;
      WinnerHasMost(ms, h, k, h(b));
    }
  }

  /** Among the hashes with the most votes the winner is the smallest. */
  lemma WinnerIsFirst(ms: seq<Option<Bytes>>, h: Hash, k: Bytes, x: Bytes)
    requires Winner(ms, h, k) && x in VoteKeys(ms, h) && |Voters(ms, h, x)| == |Voters(ms, h, k)|
    ensures x == k || Less(k, x)
  {
    hide Voters, VoteKeys, Less;
    assert !Preferred(ms, h, x, k);
    LessTotal(x, k);
  }

  lemma ReturnedIsKey(ms: seq<Option<Bytes>>, h: Hash, b: Bytes)
    requires Returned(ms, b) != {}
    ensures h(b) in VoteKeys(ms, h)
  {
    var i :| i in Returned(ms, b);
    assert h(ms[i].value) in VoteKeys(ms, h);
  }

  lemma WinnerHasMost(ms: seq<Option<Bytes>>, h: Hash, k: Bytes, x: Bytes)
    requires Winner(ms, h, k) && x in VoteKeys(ms, h)
    ensures |Voters(ms, h, x)| <= |Voters(ms, h, k)|
  {
    hide Voters, VoteKeys;
    assert !Preferred(ms, h, x, k);
  }

  /** Every counted manifest hashes to the selected id, so without collisions of the id
      hash they are all the same one: the vote can only fail for lack of responses. */
  lemma NoConflicts(answers: seq<Answer>, id: string, required: nat, idHash: Hash, h: Hash,
                    r: Result<Bytes, ManifestError>)
    requires Outcome(Ballots(answers, id, idHash), h, required, r) && NoCollision(Ballots(answers, id, idHash), idHash)
    ensures var responders := Responders(Ballots(answers, id, idHash));
            && (r.Ok? <==> responders != {} && |responders| >= required)
            && (r.Ok? ==> Returned(Ballots(answers, id, idHash), r.value) == responders)
  {
    hide Winner, Voters, VoteKeys, FirstFor, Returned, Responders, Ballots, Hex.Encode;
    var ms := Ballots(answers, id, idHash);
    OneManifest(ms, id, idHash, h);
    if r.Ok? {
      AcceptedIsReturned(ms, h, required, r.value);
      AllReturned(ms, r.value);
    } else if Responders(ms) != {} {
      var b := SomeManifest(ms);
      AllReturned(ms, b);
      AcceptedIff(ms, h, required, r);
      assert Returned(ms, b) != {};
    }
  }

  /** The answers that carry b. */
  ghost function Carriers(answers: seq<Answer>, id: string, idHash: Hash, b: Bytes): set<nat> {
    set i | 0 <= i < |answers| && Carries(answers[i], id, idHash, b)
  }

  /** Without id collisions, a manifest that enough sources carry is the one accepted, and no
      other is: the vote succeeds with b exactly when that many answers carry b. */
  lemma CarriedIsAccepted(answers: seq<Answer>, id: string, required: nat, idHash: Hash, h: Hash, b: Bytes,
                          r: Result<Bytes, ManifestError>)
    requires Outcome(Ballots(answers, id, idHash), h, required, r) && NoCollision(Ballots(answers, id, idHash), idHash)
    ensures r == Ok(b) <==> Carriers(answers, id, idHash, b) != {} && |Carriers(answers, id, idHash, b)| >= required
  {
    hide Outcome, NoCollision, Responders, Carries, Accepted, Hex.Encode;
    var ms := Ballots(answers, id, idHash);
    NoConflicts(answers, id, required, idHash, h, r);
    assert Carriers(answers, id, idHash, b) == Returned(ms, b);
    OneManifest(ms, id, idHash, h);
    if Returned(ms, b) != {} { AllReturned(ms, b); }
    if r == Ok(b) { assert Returned(ms, b) == Responders(ms); }
  }

  lemma SomeManifest(ms: seq<Option<Bytes>>) returns (b: Bytes)
    requires Responders(ms) != {}
    ensures Returned(ms, b) != {}
  {
    var i :| i in Responders(ms);
    b := ms[i].value;
    assert i in Returned(ms, b);
  }

  lemma OneManifest(ms: seq<Option<Bytes>>, id: string, idHash: Hash, h: Hash)
    requires forall i :: 0 <= i < |ms| && ms[i].Some? ==> Hex.Encode(idHash(ms[i].value)) == id
    requires NoCollision(ms, idHash)
    ensures forall i, j :: 0 <= i < |ms| && 0 <= j < |ms| && ms[i].Some? && ms[j].Some? ==> ms[i] == ms[j]
    ensures NoCollision(ms, h)
  {
    forall i, j | 0 <= i < |ms| && 0 <= j < |ms| && ms[i].Some? && ms[j].Some? ensures ms[i] == ms[j] {
      Hex.EncodeInjective(idHash(ms[i].value), idHash(ms[j].value));
    }
  }

  lemma AllReturned(ms: seq<Option<Bytes>>, b: Bytes)
    requires forall i, j :: 0 <= i < |ms| && 0 <= j < |ms| && ms[i].Some? && ms[j].Some? ==> ms[i] == ms[j]
    requires Returned(ms, b) != {}
    ensures Returned(ms, b) == Responders(ms)
  {
    var i :| i in Returned(ms, b);
    assert forall j :: j in Responders(ms) ==> ms[j] == ms[i];
  }

  ghost function Identities(kept: seq<Source>, V: set<nat>): set<string>
    requires forall i :: i in V ==> i < |kept|
  {
    set i | i in V :: kept[i].identity
  }

  /** Distinct sources are distinct identities. */
  lemma {:induction false} IdentitiesCount(kept: seq<Source>, V: set<nat>)
    requires Distinct(kept) && forall i :: i in V ==> i < |kept|
    ensures |Identities(kept, V)| == |V| && Identities(kept, V) <= Names(kept)
  {
    hide Distinct, Identities, Names;
    if V == {} {
      NoIdentities(kept);
    } else {
      var i :| i in V;
      var W := V - {i};
      IdentitiesCount(kept, W);
      OneMore(kept, W, i);
      assert V == W + {i};
    }
  }

  lemma NoIdentities(kept: seq<Source>)
    ensures Identities(kept, {}) == {}
  {
  }

  lemma OneMore(kept: seq<Source>, V: set<nat>, i: nat)
    requires Distinct(kept) && i < |kept| && i !in V && forall j :: j in V ==> j < |kept|
    ensures Identities(kept, V + {i}) == Identities(kept, V) + {kept[i].identity}
    ensures kept[i].identity !in Identities(kept, V) && kept[i].identity in Names(kept)
  {
    assert kept[i] in kept;
    forall j | j in V ensures kept[j].identity != kept[i].identity {
      if i < j { assert kept[i].identity != kept[j].identity; } else { assert kept[j].identity != kept[i].identity; }
    }
  }

  datatype Bootstrap = Bootstrap(selection: Selection, manifest: Bytes)

  datatype BootstrapError = Select(select: SelectionError) | Fetch(fetch: ManifestError)

  /** Selection and manifest fetch, as the audit chains them. An accepted manifest hashes
      to the selected snapshot and won the votes of as many identities as the quorum
      required, all of them supporters of that snapshot. */
  method SelectAndFetch(sources: seq<Source>, p: Policy, answer: nat -> Answer, idHash: Hash, h: Hash)
    returns (r: Result<Bootstrap, BootstrapError>)
    ensures r.Ok? ==>
              var d, kept := r.value.selection.decision, r.value.selection.kept;
              var ms := Ballots(seq(|kept|, answer), d.snapshot, idHash);
              && Allowed(AsSet(Reports(sources)), p, Ok(d))
              && Kept(AsSet(Reports(sources)), d.snapshot, kept)
              && Outcome(ms, h, d.requiredVotes, Ok(r.value.manifest))
              && Hex.Encode(idHash(r.value.manifest)) == d.snapshot
  {
    hide Allowed, Kept, AsSet, Reports, Winner, Voters, VoteKeys, Hex.Encode;
    var selection := SelectSnapshotSources(sources, p);
    if selection.Err? {
      return Err(Select(selection.error));
    }
    var kept, d := selection.value.kept, selection.value.decision;
    var answers := seq(|kept|, answer);
    var manifest := FetchManifest(answers, d.snapshot, d.requiredVotes, idHash, h);
    if manifest.Err? {
      return Err(Fetch(manifest.error));
    }
    OutcomeHashes(answers, d.snapshot, d.requiredVotes, idHash, h, manifest.value);
    r := Ok(Bootstrap(selection.value, manifest.value));
  }

  lemma OutcomeHashes(answers: seq<Answer>, id: string, required: nat, idHash: Hash, h: Hash, b: Bytes)
    requires Outcome(Ballots(answers, id, idHash), h, required, Ok(b))
    ensures Hex.Encode(idHash(b)) == id
  {
    hide Winner, Voters, VoteKeys, Hex.Encode, Accepted;
    var ms := Ballots(answers, id, idHash);
    var k :| Winner(ms, h, k) && |Voters(ms, h, k)| >= required && FirstFor(ms, h, k, b);
    FirstForReturned(ms, h, k, b);
  }

  /** End to end: without hash collisions among the answers, the accepted manifest was
      returned by at least the required number of distinct identities, and each of them
      reported the selected snapshot. */
  lemma EndToEnd(E: set<Evidence>, d: Decision, kept: seq<Source>, ms: seq<Option<Bytes>>, h: Hash, b: Bytes)
    requires Kept(E, d.snapshot, kept) && |ms| == |kept|
    requires Outcome(ms, h, d.requiredVotes, Ok(b)) && NoCollision(ms, h)
    ensures forall i :: i in Returned(ms, b) ==> i < |kept|
    ensures |Identities(kept, Returned(ms, b))| >= d.requiredVotes
    ensures Identities(kept, Returned(ms, b)) <= Supporters(E, d.snapshot)
  {
    hide Winner, Voters, VoteKeys, FirstFor, KeptAt, NoCollision, Distinct, Names, Identities;
    AcceptedIsReturned(ms, h, d.requiredVotes, b);
    IdentitiesCount(kept, Returned(ms, b));
  }
}
