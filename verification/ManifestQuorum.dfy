/** The manifest vote among the kept sources. */
module ManifestQuorum {
  import opened Options
  import opened ByteKeys
  import Hex
  import QuorumTheorems

  const MAX_MANIFEST_HEX_LEN: nat := 4 * 1024 * 1024

  /** What asking one source comes to. */
  datatype Answer = Blocked | Failed | Manifest(hex: string)

  type Hash = Hex.Hash

  /** The answer is the manifest b in hexadecimal, not over the limit, and b has the id. */
  ghost predicate Carries(a: Answer, id: string, idHash: Hash, b: Bytes) {
    a.Manifest? && |a.hex| <= 4194304 && Hex.Decode(a.hex) == Some(b) && Hex.Encode(idHash(b)) == id
  }

  /** The manifest of an answer that passes every check of the vote loop. */
  function Accepted(a: Answer, id: string, idHash: Hash): (r: Option<Bytes>)
    ensures r.Some? ==> Hex.Encode(idHash(r.value)) == id
    ensures forall b :: r == Some(b) <==> Carries(a, id, idHash, b)
  {
    if !a.Manifest? || |a.hex| > MAX_MANIFEST_HEX_LEN then None
    else
      match Hex.Decode(a.hex)
      case None => None
      case Some(b) => if Hex.Encode(idHash(b)) == id then Some(b) else None
  }

  /** The accepted manifest of each source, if any. */
  function Ballots(answers: seq<Answer>, id: string, idHash: Hash): (ms: seq<Option<Bytes>>)
    ensures |ms| == |answers|
    ensures forall i :: 0 <= i < |ms| && ms[i].Some? ==> Hex.Encode(idHash(ms[i].value)) == id
  {
    seq(|answers|, i requires 0 <= i < |answers| => Accepted(answers[i], id, idHash))
  }

  /** The sources whose manifest has the hash k. */
  ghost function Voters(ms: seq<Option<Bytes>>, h: Hash, k: Bytes): set<nat> {
    set i | 0 <= i < |ms| && ms[i].Some? && h(ms[i].value) == k
  }

  ghost function VoteKeys(ms: seq<Option<Bytes>>, h: Hash): set<Bytes> {
    set i | 0 <= i < |ms| && ms[i].Some? :: h(ms[i].value)
  }

  ghost function Responders(ms: seq<Option<Bytes>>): set<nat> {
    set i | 0 <= i < |ms| && ms[i].Some?
  }

  datatype Vote = Vote(bytes: Bytes, count: nat)

  /** b is the manifest of the first source that voted for k. */
  ghost predicate FirstFor(ms: seq<Option<Bytes>>, h: Hash, k: Bytes, b: Bytes) {
    exists i :: i in Voters(ms, h, k) && ms[i] == Some(b) && forall j :: j in Voters(ms, h, k) ==> i <= j
  }

  ghost predicate Tally(ms: seq<Option<Bytes>>, h: Hash, votes: map<Bytes, Vote>) {
    votes.Keys == VoteKeys(ms, h) &&
    forall k :: k in votes ==> votes[k].count == |Voters(ms, h, k)| && FirstFor(ms, h, k, votes[k].bytes)
  }

  lemma VotersStep(ms: seq<Option<Bytes>>, h: Hash, k: Bytes, m: Option<Bytes>)
    ensures Voters(ms + [m], h, k) == Voters(ms, h, k) + if m.Some? && h(m.value) == k then {|ms|} else {}
  {
  }

  lemma KeysStep(ms: seq<Option<Bytes>>, h: Hash, m: Option<Bytes>)
    ensures VoteKeys(ms + [m], h) == VoteKeys(ms, h) + if m.Some? then {h(m.value)} else {}
    ensures Responders(ms + [m]) == Responders(ms) + if m.Some? then {|ms|} else {}
  {
    var ns := ms + [m];
    assert forall i :: 0 <= i < |ms| ==> ns[i] == ms[i];
    assert ns[|ms|] == m;
  }

  lemma FirstForStep(ms: seq<Option<Bytes>>, h: Hash, k: Bytes, m: Option<Bytes>, b: Bytes)
    requires FirstFor(ms, h, k, b)
    ensures FirstFor(ms + [m], h, k, b)
  {
    VotersStep(ms, h, k, m);
    var i :| i in Voters(ms, h, k) && ms[i] == Some(b) && forall j :: j in Voters(ms, h, k) ==> i <= j;
    assert (ms + [m])[i] == Some(b) && i in Voters(ms + [m], h, k);
  }

  lemma FirstVote(ms: seq<Option<Bytes>>, h: Hash, b: Bytes)
    requires h(b) !in VoteKeys(ms, h)
    ensures FirstFor(ms + [Some(b)], h, h(b), b) && |Voters(ms + [Some(b)], h, h(b))| == 1
  {
    var ns := ms + [Some(b)];
    VotersStep(ms, h, h(b), Some(b));
    assert Voters(ms, h, h(b)) == {};
    assert ns[|ms|] == Some(b);
    assert |ms| in Voters(ns, h, h(b));
  }

  /** One turn of the vote loop. */
  function CountVote(votes: map<Bytes, Vote>, h: Hash, b: Bytes): map<Bytes, Vote> {
    if h(b) in votes then votes[h(b) := Vote(votes[h(b)].bytes, votes[h(b)].count + 1)]
    else votes[h(b) := Vote(b, 1)]
  }

  lemma TallyStep(ms: seq<Option<Bytes>>, h: Hash, votes: map<Bytes, Vote>, b: Bytes)
    requires Tally(ms, h, votes)
    ensures Tally(ms + [Some(b)], h, CountVote(votes, h, b))
  {
    hide Voters, VoteKeys, FirstFor;
    var ns, after := ms + [Some(b)], CountVote(votes, h, b);
    KeysStep(ms, h, Some(b));
    forall k | k in after ensures after[k].count == |Voters(ns, h, k)| && FirstFor(ns, h, k, after[k].bytes) {
      VotersStep(ms, h, k, Some(b));
      if k in votes {
        FirstForStep(ms, h, k, Some(b), votes[k].bytes);
        LastIsNew(ms, h, k);
      } else {
        FirstVote(ms, h, b);
      }
    }
  }

  lemma TallySkip(ms: seq<Option<Bytes>>, h: Hash, votes: map<Bytes, Vote>)
    requires Tally(ms, h, votes)
    ensures Tally(ms + [None], h, votes)
  {
    hide Voters, VoteKeys, FirstFor;
    KeysStep(ms, h, None);
    forall k | k in votes
      ensures votes[k].count == |Voters(ms + [None], h, k)| && FirstFor(ms + [None], h, k, votes[k].bytes)
    {
      VotersStep(ms, h, k, None);
      FirstForStep(ms, h, k, None, votes[k].bytes);
    }
  }

  lemma LastIsNew(ms: seq<Option<Bytes>>, h: Hash, k: Bytes)
    ensures |ms| !in Voters(ms, h, k)
  {
  }

  /** The order of the vote entries: more votes first, then the smaller hash. */
  ghost predicate Preferred(ms: seq<Option<Bytes>>, h: Hash, a: Bytes, b: Bytes) {
    |Voters(ms, h, a)| > |Voters(ms, h, b)| || (|Voters(ms, h, a)| == |Voters(ms, h, b)| && Less(a, b))
  }

  ghost predicate Winner(ms: seq<Option<Bytes>>, h: Hash, k: Bytes) {
    k in VoteKeys(ms, h) && forall x :: x in VoteKeys(ms, h) ==> !Preferred(ms, h, x, k)
  }

  datatype ManifestError = Unavailable | VotesMissing

  /** What the vote comes to. */
  ghost predicate Outcome(ms: seq<Option<Bytes>>, h: Hash, required: nat, r: Result<Bytes, ManifestError>) {
    if VoteKeys(ms, h) == {} then r == Err(Unavailable)
    else
      exists k :: Winner(ms, h, k) &&
        if |Voters(ms, h, k)| < required then r == Err(VotesMissing) else r.Ok? && FirstFor(ms, h, k, r.value)
  }

  predicate Outvotes(votes: map<Bytes, Vote>, a: Bytes, b: Bytes)
    requires a in votes && b in votes
  {
    votes[a].count > votes[b].count || (votes[a].count == votes[b].count && Less(a, b))
  }

  lemma OutvotesOrder(votes: map<Bytes, Vote>, a: Bytes, b: Bytes, c: Bytes)
    requires a in votes && b in votes && c in votes && !Outvotes(votes, a, b) && Outvotes(votes, c, b)
    ensures !Outvotes(votes, a, c) && !Outvotes(votes, b, c)
  {
    hide Less;
    LessTotal(a, b);
    LessTotal(b, c);
    if Less(a, c) && Less(c, b) { LessTransitive(a, c, b); }
  }

  /** The entry that sorts first, whatever order the hash map yields them in. */
  method FirstEntry(votes: map<Bytes, Vote>) returns (k: Bytes)
    requires votes.Keys != {}
    ensures k in votes && forall x :: x in votes ==> !Outvotes(votes, x, k)
  {
    hide Outvotes;
    var rest := votes.Keys;
    k :| k in rest;
    rest := rest - {k};
    Irreflexive(votes, k);
    while rest != {}
      invariant rest <= votes.Keys && k in votes
      invariant forall x :: x in votes.Keys - rest ==> !Outvotes(votes, x, k)
      decreases rest
    {
      var c :| c in rest;
      Irreflexive(votes, c);
      if Outvotes(votes, c, k) {
        forall x | x in votes.Keys - rest ensures !Outvotes(votes, x, c) { OutvotesOrder(votes, x, k, c); }
        k := c;
      }
      rest := rest - {c};
    }
  }

  lemma Irreflexive(votes: map<Bytes, Vote>, k: Bytes)
    requires k in votes
    ensures !Outvotes(votes, k, k)
  {
    LessTotal(k, k);
  }

  lemma VotersRespond(ms: seq<Option<Bytes>>, h: Hash, k: Bytes)
    ensures |Voters(ms, h, k)| <= |Responders(ms)|
  {
    QuorumTheorems.SubsetSize(Voters(ms, h, k), Responders(ms));
  }

  lemma TallyWinner(ms: seq<Option<Bytes>>, h: Hash, votes: map<Bytes, Vote>, k: Bytes)
    requires Tally(ms, h, votes) && k in votes && forall x :: x in votes ==> !Outvotes(votes, x, k)
    ensures Winner(ms, h, k)
  {
    hide Voters, VoteKeys, FirstFor, Less;
    forall x | x in VoteKeys(ms, h) ensures !Preferred(ms, h, x, k) {
      assert x in votes && !Outvotes(votes, x, k);
    }
  }

  /** The vote loop and the pick of the winning entry. */
  method FetchManifest(answers: seq<Answer>, id: string, required: nat, idHash: Hash, h: Hash)
    returns (r: Result<Bytes, ManifestError>)
    ensures Outcome(Ballots(answers, id, idHash), h, required, r)
  {
    hide Voters, VoteKeys, FirstFor, Less, Responders, Winner, CountVote, Outvotes, Accepted;
    ghost var ms := Ballots(answers, id, idHash);
    var votes: map<Bytes, Vote> := map[];
    var responses := 0;
    NoVotes(h);
    assert ms[..0] == [];
    for i := 0 to |answers|
      invariant Tally(ms[..i], h, votes) && responses == |Responders(ms[..i])|
    {
      var m := Accepted(answers[i], id, idHash);
      assert ms[..i + 1] == ms[..i] + [m];
      KeysStep(ms[..i], h, m);
      assert i !in Responders(ms[..i]) by { NotYet(ms[..i]); }
      if m.None? {
        TallySkip(ms[..i], h, votes);
        continue;
      }
      TallyStep(ms[..i], h, votes, m.value);
      votes := CountVote(votes, h, m.value);
      responses := responses + 1;
    }
    assert ms[..|answers|] == ms;
    if votes.Keys == {} {
      return Err(Unavailable);
    }
    var k := FirstEntry(votes);
    TallyWinner(ms, h, votes, k);
    VotersRespond(ms, h, k);
    if responses < required || votes[k].count < required {
      return Err(VotesMissing);
    }
    r := Ok(votes[k].bytes);
  }

  lemma NoVotes(h: Hash)
    ensures Tally([], h, map[]) && Responders([]) == {}
  {
  }

  lemma NotYet(ms: seq<Option<Bytes>>)
    ensures |ms| !in Responders(ms)
  {
  }
}
