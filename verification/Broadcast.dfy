/** The broadcasting plan: listeners grouped by subscription and encoding so that each
    message is built once, and the broadcasting loop that keeps it. */
module Broadcast {
  import opened Options

  newtype ListenerId = x: int | 0 <= x < 0x1_0000_0000_0000_0000

  type Connections<C> = map<ListenerId, C>

  type Index<S, E, C> = map<S, map<E, Connections<C>>>

  /** The connections of one subscription and encoding. */
  function Set<S, E, C>(p: Index<S, E, C>, s: S, e: E): Connections<C> {
    if s in p && e in p[s] then p[s][e] else map[]
  }

  /** No subscription without an encoding, no encoding without a connection. */
  ghost predicate NoneEmpty<S, E, C>(p: Index<S, E, C>) {
    forall s :: s in p ==> p[s] != map[] && forall e :: e in p[s] ==> p[s][e] != map[]
  }

  /** The nested index holds exactly the entries of the flat map, each id once, under
      its subscription and the encoding of its connection. */
  ghost predicate Represents<S(!new), E(!new), C>(p: Index<S, E, C>, flat: map<ListenerId, (S, C)>, encoding: C -> E) {
    && (forall s, e, id :: id in Set(p, s, e) ==>
          id in flat && flat[id] == (s, Set(p, s, e)[id]) && encoding(flat[id].1) == e)
    && (forall id :: id in flat ==> id in Set(p, flat[id].0, encoding(flat[id].1)))
  }

  /** An index represents one flat map only. */
  lemma FlatUnique<S(!new), E(!new), C>(p: Index<S, E, C>, f: map<ListenerId, (S, C)>, g: map<ListenerId, (S, C)>,
                                        encoding: C -> E)
    requires Represents(p, f, encoding) && Represents(p, g, encoding)
    ensures f == g
  {
    hide Set;
    assert forall id :: id in f ==> id in Set(p, f[id].0, encoding(f[id].1));
    assert forall id :: id in g ==> id in Set(p, g[id].0, encoding(g[id].1));
  }

  /** An id is found in one place only. */
  lemma FoundOnce<S(!new), E(!new), C>(p: Index<S, E, C>, flat: map<ListenerId, (S, C)>, encoding: C -> E,
                                       s: S, e: E, s': S, e': E, id: ListenerId)
    requires Represents(p, flat, encoding) && id in Set(p, s, e) && id in Set(p, s', e')
    ensures s == s' && e == e'
  {
    hide Set;
    assert flat[id] == (s, Set(p, s, e)[id]) && flat[id] == (s', Set(p, s', e')[id]);
  }

  /** q is p with one connection set replaced. */
  ghost predicate Replaced<S(!new), E(!new), C>(p: Index<S, E, C>, q: Index<S, E, C>, s: S, e: E, c: Connections<C>) {
    forall s', e' :: Set(q, s', e') == if s' == s && e' == e then c else Set(p, s', e')
  }

  lemma InsertRepresents<S(!new), E(!new), C>(p: Index<S, E, C>, q: Index<S, E, C>, flat: map<ListenerId, (S, C)>,
                                              encoding: C -> E, s: S, id: ListenerId, c: C)
    requires Represents(p, flat, encoding) && id !in flat
    requires Replaced(p, q, s, encoding(c), Set(p, s, encoding(c))[id := c])
    ensures Represents(q, flat[id := (s, c)], encoding)
  {
    hide Set;
    var flat' := flat[id := (s, c)];
    forall i | i in flat' ensures i in Set(q, flat'[i].0, encoding(flat'[i].1)) {
      assert i != id ==> i in Set(p, flat[i].0, encoding(flat[i].1));
    }
  }

  lemma RemoveRepresents<S(!new), E(!new), C>(p: Index<S, E, C>, q: Index<S, E, C>, flat: map<ListenerId, (S, C)>,
                                              encoding: C -> E, s: S, e: E, id: ListenerId)
    requires Represents(p, flat, encoding) && id in Set(p, s, e)
    requires Replaced(p, q, s, e, Set(p, s, e) - {id})
    ensures Represents(q, flat - {id}, encoding)
  {
    hide Set;
    var flat' := flat - {id};
    forall s', e', i | i in Set(q, s', e')
      ensures i in flat' && flat'[i] == (s', Set(q, s', e')[i]) && encoding(flat'[i].1) == e'
    {
      assert Set(q, s', e') == if s' == s && e' == e then Set(p, s, e) - {id} else Set(p, s', e');
      assert i in Set(p, s', e') && Set(q, s', e')[i] == Set(p, s', e')[i];
      assert i in flat && flat[i] == (s', Set(p, s', e')[i]);
      if i == id { FoundOnce(p, flat, encoding, s, e, s', e', id); }
    }
    forall i | i in flat' ensures i in Set(q, flat'[i].0, encoding(flat'[i].1)) {
      var s', e' := flat[i].0, encoding(flat[i].1);
      assert i in Set(p, s', e');
      assert Set(q, s', e') == if s' == s && e' == e then Set(p, s, e) - {id} else Set(p, s', e');
    }
  }

  lemma ListedIsFound<S(!new), E(!new), C>(p: Index<S, E, C>, flat: map<ListenerId, (S, C)>, encoding: C -> E,
                                           id: ListenerId)
    requires Represents(p, flat, encoding)
    ensures id in flat ==> exists s, e :: id in Set(p, s, e)
  {
    hide Set;
    if id in flat {
      assert id in Set(p, flat[id].0, encoding(flat[id].1));
    }
  }

  function InsertEntry<S, E, C>(p: Index<S, E, C>, s: S, e: E, id: ListenerId, c: C): Index<S, E, C> {
    var encodings: map<E, Connections<C>> := if s in p then p[s] else map[];
    var connections: Connections<C> := if e in encodings then encodings[e] else map[];
    p[s := encodings[e := connections[id := c]]]
  }

  lemma InsertReplaces<S(!new), E(!new), C>(p: Index<S, E, C>, s: S, e: E, id: ListenerId, c: C)
    requires NoneEmpty(p)
    ensures Replaced(p, InsertEntry(p, s, e, id, c), s, e, Set(p, s, e)[id := c])
    ensures NoneEmpty(InsertEntry(p, s, e, id, c))
  {
    assert id in Set(p, s, e)[id := c];
  }

  /** The index without one entry, with the emptied set still in place. */
  function RemoveEntry<S, E, C>(p: Index<S, E, C>, s: S, e: E, id: ListenerId): Index<S, E, C>
    requires s in p && e in p[s]
  {
    p[s := p[s][e := p[s][e] - {id}]]
  }

  /** The index without an emptied connection set, and without its subscription if
      that was the last one. */
  function Prune<S, E, C>(p: Index<S, E, C>, s: S, e: E): Index<S, E, C>
    requires s in p
  {
    if p[s] - {e} == map[] then p - {s} else p[s := p[s] - {e}]
  }

  lemma RemoveReplaces<S(!new), E(!new), C>(p: Index<S, E, C>, s: S, e: E, id: ListenerId)
    requires NoneEmpty(p) && s in p && e in p[s]
    ensures Replaced(p, RemoveEntry(p, s, e, id), s, e, Set(p, s, e) - {id})
    ensures p[s][e] - {id} != map[] ==> NoneEmpty(RemoveEntry(p, s, e, id))
  {
    var q, left := RemoveEntry(p, s, e, id), p[s][e] - {id};
    assert q[s] == p[s][e := left] && forall x :: x in q <==> x in p;
    forall s', e' ensures Set(q, s', e') == if s' == s && e' == e then left else Set(p, s', e') {}
    if left != map[] {
      assert e in q[s];
      forall x | x in q ensures q[x] != map[] && forall y :: y in q[x] ==> q[x][y] != map[] {}
    }
  }

  lemma PruneReplaces<S(!new), E(!new), C>(p: Index<S, E, C>, s: S, e: E, id: ListenerId)
    requires NoneEmpty(p) && s in p && e in p[s] && p[s][e] - {id} == map[]
    ensures Replaced(p, Prune(RemoveEntry(p, s, e, id), s, e), s, e, Set(p, s, e) - {id})
    ensures NoneEmpty(Prune(RemoveEntry(p, s, e, id), s, e))
  {
    var rest := p[s] - {e};
    assert RemoveEntry(p, s, e, id)[s] - {e} == rest;
    if rest == map[] {
      assert Prune(RemoveEntry(p, s, e, id), s, e) == p - {s};
      DropSubscription(p, s, e, id);
    } else {
      assert Prune(RemoveEntry(p, s, e, id), s, e) == p[s := rest];
      DropEncoding(p, s, e, id);
    }
  }

  lemma DropSubscription<S(!new), E(!new), C>(p: Index<S, E, C>, s: S, e: E, id: ListenerId)
    requires NoneEmpty(p) && s in p && e in p[s] && p[s][e] - {id} == map[] && p[s] - {e} == map[]
    ensures Replaced(p, p - {s}, s, e, Set(p, s, e) - {id}) && NoneEmpty(p - {s})
  {
    assert forall e' :: e' in p[s] && e' != e ==> e' in p[s] - {e};
  }

  lemma DropEncoding<S(!new), E(!new), C>(p: Index<S, E, C>, s: S, e: E, id: ListenerId)
    requires NoneEmpty(p) && s in p && e in p[s] && p[s][e] - {id} == map[] && p[s] - {e} != map[]
    ensures var q := p[s := p[s] - {e}];
            Replaced(p, q, s, e, Set(p, s, e) - {id}) && NoneEmpty(q)
  {
  }

  /** The messages sent, in order, list each listener of the map once with its message. */
  ghost predicate Enumerates<M>(sent: seq<(ListenerId, M)>, expected: map<ListenerId, M>) {
    && (forall k :: 0 <= k < |sent| ==> sent[k].0 in expected && expected[sent[k].0] == sent[k].1)
    && (forall id :: id in expected ==> exists k :: 0 <= k < |sent| && sent[k].0 == id)
    && (forall j, k :: 0 <= j < k < |sent| ==> sent[j].0 != sent[k].0)
  }

  lemma EnumeratesBoth<M>(s: seq<(ListenerId, M)>, f: map<ListenerId, M>, t: seq<(ListenerId, M)>,
                          g: map<ListenerId, M>,
                          h: map<ListenerId, M>)
    requires Enumerates(s, f) && Enumerates(t, g) && f.Keys !! g.Keys && h == f + g
    ensures Enumerates(s + t, h)
  {
    var r := s + t;
    forall id | id in h ensures exists k :: 0 <= k < |r| && r[k].0 == id {
      if id in f {
        var k :| 0 <= k < |s| && s[k].0 == id;
        assert r[k].0 == id;
      } else {
        var k :| 0 <= k < |t| && t[k].0 == id;
        assert r[|s| + k].0 == id;
      }
    }
  }

  /** The same message for every connection of a set. */
  ghost function ForAll<C, M>(connections: Connections<C>, message: M): map<ListenerId, M> {
    map id | id in connections :: message
  }

  /** Send one message to a set of connections, and list those found closed. */
  method SendSet<C, M>(connections: Connections<C>, message: M, closed: ListenerId -> bool)
    returns (sent: seq<(ListenerId, M)>, purge: seq<ListenerId>)
    ensures Enumerates(sent, ForAll(connections, message))
    ensures forall id :: id in purge <==> id in connections && closed(id)
  {
    sent, purge := [], [];
    var todo := connections.Keys;
    ghost var done: map<ListenerId, M> := map[];
    while todo != {}
      invariant todo <= connections.Keys
      invariant Enumerates(sent, done) && done.Keys == connections.Keys - todo
      invariant forall id :: id in done ==> done[id] == message
      invariant forall id :: id in purge <==> id in connections && id !in todo && closed(id)
      decreases |todo|
    {
      var id :| id in todo;
      todo := todo - {id};
      assert Enumerates([(id, message)], map[id := message]) by { assert [(id, message)][0].0 == id; }
      EnumeratesBoth(sent, done, [(id, message)], map[id := message], done[id := message]);
      done := done[id := message];
      sent := sent + [(id, message)];
      if closed(id) {
        purge := purge + [id];
      }
    }
    assert done == ForAll(connections, message);
  }

  /** The message each listener of a subscription is due, encodings still to do left out. */
  ghost function Due<S, E, C, A, M>(flat: map<ListenerId, (S, C)>, encoding: C -> E, s: S, todo: set<E>,
                                    applied: A, into: (A, E) -> M): map<ListenerId, M>
  {
    map id | id in flat && flat[id].0 == s && encoding(flat[id].1) !in todo :: into(applied, encoding(flat[id].1))
  }

  lemma DueNone<S(!new), E(!new), C, A, M>(p: Index<S, E, C>, flat: map<ListenerId, (S, C)>, encoding: C -> E, s: S,
                                           applied: A, into: (A, E) -> M)
    requires Represents(p, flat, encoding) && s in p
    ensures Due(flat, encoding, s, p[s].Keys, applied, into) == map[]
    ensures Enumerates<M>([], map[])
  {
    assert forall id :: id in flat ==> id in Set(p, flat[id].0, encoding(flat[id].1));
  }

  lemma DueStep<S(!new), E(!new), C, A, M>(p: Index<S, E, C>, flat: map<ListenerId, (S, C)>, encoding: C -> E, s: S,
                                           todo: set<E>, e: E, applied: A, into: (A, E) -> M)
    requires Represents(p, flat, encoding) && s in p && e in todo && todo <= p[s].Keys
    ensures var done, added := Due(flat, encoding, s, todo, applied, into), ForAll(p[s][e], into(applied, e));
            Due(flat, encoding, s, todo - {e}, applied, into) == done + added && done.Keys !! added.Keys
  {
    assert Set(p, s, e) == p[s][e];
    assert forall id :: id in p[s][e] ==> id in Set(p, s, e);
    assert forall id :: id in flat ==> id in Set(p, flat[id].0, encoding(flat[id].1));
  }

  /** The message each listener is due for a notification, subscriptions still to do left out. */
  ghost function Deliveries<S, E, C, A, M>(flat: map<ListenerId, (S, C)>, encoding: C -> E, todo: set<S>,
                                           apply: S -> Option<A>, into: (A, E) -> M): map<ListenerId, M>
  {
    map id | id in flat && flat[id].0 !in todo && apply(flat[id].0).Some?
      :: into(apply(flat[id].0).value, encoding(flat[id].1))
  }

  lemma DeliveriesNone<S(!new), E(!new), C, A, M>(p: Index<S, E, C>, flat: map<ListenerId, (S, C)>, encoding: C -> E,
                                                  apply: S -> Option<A>, into: (A, E) -> M)
    requires Represents(p, flat, encoding)
    ensures Deliveries(flat, encoding, p.Keys, apply, into) == map[]
    ensures Enumerates<M>([], map[])
  {
    assert forall id :: id in flat ==> id in Set(p, flat[id].0, encoding(flat[id].1));
  }

  lemma DeliveriesStep<S, E, C, A, M>(flat: map<ListenerId, (S, C)>, encoding: C -> E, todo: set<S>, s: S,
                                      apply: S -> Option<A>, into: (A, E) -> M)
    requires s in todo
    ensures var done := Deliveries(flat, encoding, todo, apply, into);
            var next := Deliveries(flat, encoding, todo - {s}, apply, into);
            if apply(s).None? then next == done
            else var added := Due(flat, encoding, s, {}, apply(s).value, into);
                 next == done + added && done.Keys !! added.Keys
  {
  }

  class Plan<S(==, !new), E(==, !new), C> {
    var index: Index<S, E, C>
    const encoding: C -> E
    ghost var flat: map<ListenerId, (S, C)>

    ghost predicate Valid()
      reads this
    {
      NoneEmpty(index) && Represents(index, flat, encoding)
    }

    constructor (encoding: C -> E)
      ensures Valid() && flat == map[] && this.encoding == encoding
    {
      this.encoding := encoding;
      index := map[];
      flat := map[];
    }

    /** `Plan::insert` returns the connection that was registered under the id before. */
    method Insert(subscription: S, id: ListenerId, connection: C) returns (displaced: Option<C>)
      requires Valid()
      modifies this
      ensures Valid()
      ensures flat == old(flat)[id := (subscription, connection)]
      ensures displaced == if id in old(flat) then Some(old(flat)[id].1) else None
    {
      hide NoneEmpty, Represents, Replaced, InsertEntry, Set;
      displaced := Remove(id);
      var e := encoding(connection);
      ghost var before := index;
      InsertReplaces(index, subscription, e, id, connection);
      index := InsertEntry(index, subscription, e, id, connection);
      InsertRepresents(before, index, flat, encoding, subscription, id, connection);
      flat := flat[id := (subscription, connection)];
    }

    /** `Plan::remove`: scan for the id, then drop the sets it leaves empty. */
    method Remove(id: ListenerId) returns (removed: Option<C>)
      requires Valid()
      modifies this
      ensures Valid()
      ensures flat == old(flat) - {id}
      ensures removed == if id in old(flat) then Some(old(flat)[id].1) else None
    {
      hide NoneEmpty, Represents, Replaced, Prune, RemoveEntry, Set, CutAt;
      ghost var p := index;
      var found: Option<(S, E)>;
      ghost var place: Option<(S, E)>;
      removed, found, place := Scan(id);
      if place.Some? { CutLeaves(p, place.value.0, place.value.1, id, index, removed); }
      if found.Some? {
        var (s, e) := found.value;
        PruneReplaces(p, s, e, id);
        index := Prune(index, s, e);
      } else if place.Some? {
        RemoveReplaces(p, place.value.0, place.value.1, id);
      }
      FlatAfterRemove(p, index, flat, place, id);
      flat := flat - {id};
    }

    /** The scan takes the id out of the one set that holds it, and reports an emptied set. */
    method Scan(id: ListenerId) returns (removed: Option<C>, found: Option<(S, E)>, ghost place: Option<(S, E)>)
      requires Valid()
      modifies this`index
      ensures place == None ==>
                index == old(index) && removed == None && found == None && forall s, e :: id !in Set(index, s, e)
      ensures place.Some? ==>
                var (s, e) := place.value;
                && CutAt(old(index), s, e, id, index, removed)
                && found == if Set(index, s, e) == map[] then place else None
    {
      hide NoneEmpty, Represents, Replaced, Scanned, ScannedIn, CutAt, Set;
      removed, found, place := None, None, None;
      ghost var p := index;
      var subscriptions := index.Keys;
      ScanAll(p, id);
      while subscriptions != {}
        invariant subscriptions <= p.Keys && found == None
        invariant place == None ==> index == p && removed == None && Scanned(p, id, subscriptions)
        invariant place.Some? ==> RemovedAt(p, place.value, id, index, removed)
        decreases |subscriptions|
      {
        var s :| s in subscriptions;
        assert subscriptions == subscriptions - {s} + {s};
        subscriptions := subscriptions - {s};
        if place.Some? { SameKeys(p, place.value, id, index, removed); }
        var encodings := index[s].Keys;
        while encodings != {}
          invariant encodings <= p[s].Keys && found == None
          invariant place == None ==>
                      && index == p && removed == None
                      && Scanned(p, id, subscriptions + {s}) && ScannedIn(p, id, s, encodings)
          invariant place.Some? ==> RemovedAt(p, place.value, id, index, removed)
          decreases |encodings|
        {
          var e :| e in encodings;
          assert encodings == encodings - {e} + {e};
          encodings := encodings - {e};
          if place.Some? {
            SameKeys(p, place.value, id, index, removed);
            NotTwice(p, flat, place.value, s, e, id, index, removed);
          }
          SetIs(index, s, e);
          if id in index[s][e] {
            removed := Some(index[s][e][id]);
            place := Some((s, e));
            index := RemoveEntry(index, s, e, id);
            CutHere(p, s, e, id);
            if index[s][e] == map[] {
              found := Some((s, e));
              return;
            }
          } else if place == None {
            ScanOne(p, id, s, encodings, e);
          }
        }
        if place == None { ScanJoin(p, id, subscriptions, s); }
      }
      if place == None { ScanDone(p, id); }
    }

    lemma SetIs(p: Index<S, E, C>, s: S, e: E)
      requires s in p && e in p[s]
      ensures Set(p, s, e) == p[s][e]
    {
    }

    /** q is p with the id taken out of one set. */
    ghost predicate CutAt(p: Index<S, E, C>, s: S, e: E, id: ListenerId, q: Index<S, E, C>, removed: Option<C>) {
      && s in p && e in p[s] && id in Set(p, s, e)
      && q == RemoveEntry(p, s, e, id)
      && removed == Some(Set(p, s, e)[id])
    }

    lemma CutHere(p: Index<S, E, C>, s: S, e: E, id: ListenerId)
      requires s in p && e in p[s] && id in p[s][e]
      ensures var q := RemoveEntry(p, s, e, id);
              && CutAt(p, s, e, id, q, Some(p[s][e][id]))
              && s in q && e in q[s] && Set(q, s, e) == q[s][e]
    {
    }

    lemma CutLeaves(p: Index<S, E, C>, s: S, e: E, id: ListenerId, q: Index<S, E, C>, removed: Option<C>)
      requires CutAt(p, s, e, id, q, removed)
      ensures s in p && e in p[s] && s in q && Set(p, s, e) == p[s][e] && Set(q, s, e) == p[s][e] - {id}
      ensures id in Set(p, s, e) && removed == Some(Set(p, s, e)[id]) && q == RemoveEntry(p, s, e, id)
    {
    }

    lemma SameKeys(p: Index<S, E, C>, place: (S, E), id: ListenerId, q: Index<S, E, C>, removed: Option<C>)
      requires RemovedAt(p, place, id, q, removed)
      ensures q.Keys == p.Keys && forall s :: s in p ==> q[s].Keys == p[s].Keys
    {
    }

    ghost predicate RemovedAt(p: Index<S, E, C>, place: (S, E), id: ListenerId, q: Index<S, E, C>, removed: Option<C>) {
      CutAt(p, place.0, place.1, id, q, removed) && Set(q, place.0, place.1) != map[]
    }

    /** The id is under none of the subscriptions already taken. */
    ghost predicate Scanned(p: Index<S, E, C>, id: ListenerId, left: set<S>) {
      forall s, e :: s !in left ==> id !in Set(p, s, e)
    }

    ghost predicate ScannedIn(p: Index<S, E, C>, id: ListenerId, s: S, left: set<E>) {
      forall e :: e !in left ==> id !in Set(p, s, e)
    }

    lemma ScanAll(p: Index<S, E, C>, id: ListenerId)
      ensures Scanned(p, id, p.Keys) && forall s :: s in p ==> ScannedIn(p, id, s, p[s].Keys)
    {
    }

    lemma ScanOne(p: Index<S, E, C>, id: ListenerId, s: S, left: set<E>, e: E)
      requires ScannedIn(p, id, s, left + {e}) && id !in Set(p, s, e)
      ensures ScannedIn(p, id, s, left)
    {
      hide Set;
    }

    lemma ScanJoin(p: Index<S, E, C>, id: ListenerId, left: set<S>, s: S)
      requires Scanned(p, id, left + {s}) && ScannedIn(p, id, s, {})
      ensures Scanned(p, id, left)
    {
      hide Set;
    }

    lemma ScanDone(p: Index<S, E, C>, id: ListenerId)
      requires Scanned(p, id, {})
      ensures forall s, e :: id !in Set(p, s, e)
    {
      hide Set;
    }

    lemma NotTwice(p: Index<S, E, C>, flat: map<ListenerId, (S, C)>, place: (S, E), s: S, e: E, id: ListenerId,
                   q: Index<S, E, C>, removed: Option<C>)
      requires Represents(p, flat, encoding) && RemovedAt(p, place, id, q, removed)
      ensures id !in Set(q, s, e)
    {
      hide Represents;
      if id in Set(p, s, e) { FoundOnce(p, flat, encoding, s, e, place.0, place.1, id); }
    }

    lemma FlatAfterRemove(p: Index<S, E, C>, q: Index<S, E, C>, flat: map<ListenerId, (S, C)>, place: Option<(S, E)>,
                          id: ListenerId)
      requires Represents(p, flat, encoding)
      requires place == None ==> q == p && forall s, e :: id !in Set(p, s, e)
      requires place.Some? ==>
                 var (s, e) := place.value;
                 id in Set(p, s, e) && Replaced(p, q, s, e, Set(p, s, e) - {id})
      ensures Represents(q, flat - {id}, encoding)
      ensures id in flat <==> place.Some?
      ensures place.Some? ==> flat[id].1 == Set(p, place.value.0, place.value.1)[id]
    {
      hide Set, Replaced;
      if place.Some? {
        RemoveRepresents(p, q, flat, encoding, place.value.0, place.value.1, id);
      } else {
        ListedIsFound(p, flat, encoding, id);
        assert flat - {id} == flat;
      }
    }

    method SendSubscription<A, M>(s: S, applied: A, into: (A, E) -> M, closed: ListenerId -> bool)
      returns (sent: seq<(ListenerId, M)>, purge: seq<ListenerId>)
      requires Valid() && s in index
      ensures Enumerates(sent, Due(flat, encoding, s, {}, applied, into))
      ensures forall id :: id in purge <==> id in Due(flat, encoding, s, {}, applied, into) && closed(id)
    {
      hide Enumerates, NoneEmpty, Represents, Due;
      sent, purge := [], [];
      var todo := index[s].Keys;
      DueNone(index, flat, encoding, s, applied, into);
      while todo != {}
        invariant todo <= index[s].Keys
        invariant Enumerates(sent, Due(flat, encoding, s, todo, applied, into))
        invariant forall id :: id in purge <==> id in Due(flat, encoding, s, todo, applied, into) && closed(id)
        decreases |todo|
      {
        var e :| e in todo;
        ghost var done := Due(flat, encoding, s, todo, applied, into);
        DueStep(index, flat, encoding, s, todo, e, applied, into);
        todo := todo - {e};
        var more, closedOnes := SendSet(index[s][e], into(applied, e), closed);
        ghost var added := ForAll(index[s][e], into(applied, e));
        EnumeratesBoth(sent, done, more, added, done + added);
        sent, purge := sent + more, purge + closedOnes;
      }
    }

    /** Send a notification to every listener whose subscription it applies to. */
    method Send<A, M>(apply: S -> Option<A>, into: (A, E) -> M, closed: ListenerId -> bool)
      returns (sent: seq<(ListenerId, M)>, purge: seq<ListenerId>)
      requires Valid()
      ensures Enumerates(sent, Deliveries(flat, encoding, {}, apply, into))
      ensures forall id :: id in purge <==> id in Deliveries(flat, encoding, {}, apply, into) && closed(id)
    {
      hide Enumerates, NoneEmpty, Represents, Due, Deliveries;
      sent, purge := [], [];
      var todo := index.Keys;
      DeliveriesNone(index, flat, encoding, apply, into);
      while todo != {}
        invariant todo <= index.Keys
        invariant Enumerates(sent, Deliveries(flat, encoding, todo, apply, into))
        invariant forall id :: id in purge <==> id in Deliveries(flat, encoding, todo, apply, into) && closed(id)
        decreases |todo|
      {
        var s :| s in todo;
        ghost var done := Deliveries(flat, encoding, todo, apply, into);
        DeliveriesStep(flat, encoding, todo, s, apply, into);
        todo := todo - {s};
        var applied := apply(s);
        if applied.Some? {
          var more, closedOnes := SendSubscription(s, applied.value, into, closed);
          ghost var added := Due(flat, encoding, s, {}, applied.value, into);
          EnumeratesBoth(sent, done, more, added, done + added);
          sent, purge := sent + more, purge + closedOnes;
        }
      }
    }

    method Purge(ids: seq<ListenerId>)
      requires Valid()
      modifies this
      ensures Valid() && flat == old(flat) - set id | id in ids
    {
      hide NoneEmpty, Represents;
      for i := 0 to |ids|
        invariant Valid() && flat == old(flat) - set id | id in ids[..i]
      {
        var removed := Remove(ids[i]);
        assert ids[..i + 1] == ids[..i] + [ids[i]];
      }
      assert ids[..|ids|] == ids;
    }

    /** The notification branch of the broadcasting loop: send, then drop the closed connections. */
    method Broadcast<A, M>(apply: S -> Option<A>, into: (A, E) -> M, closed: ListenerId -> bool)
      returns (sent: seq<(ListenerId, M)>)
      requires Valid()
      modifies this
      ensures Valid()
      ensures Enumerates(sent, Deliveries(old(flat), encoding, {}, apply, into))
      ensures flat == old(flat) - Closed(Deliveries(old(flat), encoding, {}, apply, into), closed)
    {
      hide Enumerates, NoneEmpty, Represents, Deliveries;
      var purge: seq<ListenerId>;
      sent, purge := Send(apply, into, closed);
      assert Closed(Deliveries(flat, encoding, {}, apply, into), closed) == set id | id in purge;
      Purge(purge);
    }
  }

  ghost function Closed<M>(sent: map<ListenerId, M>, closed: ListenerId -> bool): set<ListenerId> {
    set id | id in sent && closed(id)
  }

  /** What reaches the broadcaster: control messages and notifications, these with the
      outcome of the sends they will cause. */
  datatype Command<S, C, N> =
    | Register(subscription: S, id: ListenerId, connection: C)
    | Unregister(event: nat, id: ListenerId)
    | Notify(notification: N, closed: ListenerId -> bool)

  /** The functions of the subscription and notification types that the broadcaster relies on. */
  datatype Hooks<!S, !E, !C, !N, !A, !M> = Hooks(
    encoding: C -> E, eventOf: S -> nat, broadcasting: S -> S, eventOfNotification: N -> nat,
    apply: (N, S) -> Option<A>, into: (A, E) -> M)

  /** What a command does to the flat maps, one map for each event type. */
  ghost function Step<S, E, C, N, A, M>(h: Hooks<S, E, C, N, A, M>, flats: seq<map<ListenerId, (S, C)>>,
                                        c: Command<S, C, N>)
    : seq<map<ListenerId, (S, C)>>
  {
    match c
    case Register(s, id, connection) =>
      var e := h.eventOf(s);
      if e < |flats| then flats[e := flats[e][id := (h.broadcasting(s), connection)]] else flats
    case Unregister(e, id) =>
      if e < |flats| then flats[e := flats[e] - {id}] else flats
    case Notify(n, closed) =>
      var e := h.eventOfNotification(n);
      if e < |flats| then flats[e := flats[e] - Closed(Expected(h, flats, c), closed)] else flats
  }

  /** The messages a command makes the broadcaster send. */
  ghost function Expected<S, E, C, N, A, M>(h: Hooks<S, E, C, N, A, M>, flats: seq<map<ListenerId, (S, C)>>,
                                            c: Command<S, C, N>)
    : map<ListenerId, M>
  {
    if c.Notify? && h.eventOfNotification(c.notification) < |flats| then
      Deliveries(flats[h.eventOfNotification(c.notification)], h.encoding, {}, s => h.apply(c.notification, s), h.into)
    else map[]
  }

  ghost function Run<S, E, C, N, A, M>(h: Hooks<S, E, C, N, A, M>, flats: seq<map<ListenerId, (S, C)>>,
                                       cs: seq<Command<S, C, N>>)
    : seq<map<ListenerId, (S, C)>>
  {
    if cs == [] then flats else Step(h, Run(h, flats, cs[..|cs| - 1]), cs[|cs| - 1])
  }

  /** The broadcaster: one plan for each event type. */
  class Broadcaster<S(==, !new), E(==, !new), C, N, A, M> {
    const plans: seq<Plan<S, E, C>>
    const hooks: Hooks<S, E, C, N, A, M>

    ghost predicate Valid()
      reads this, plans
    {
      && (forall i :: 0 <= i < |plans| ==> plans[i].Valid() && plans[i].encoding == hooks.encoding)
      && (forall i, j :: 0 <= i < j < |plans| ==> plans[i] != plans[j])
    }

    ghost function Flats(): (f: seq<map<ListenerId, (S, C)>>)
      reads this, plans
      ensures |f| == |plans| && forall i :: 0 <= i < |plans| ==> f[i] == plans[i].flat
    {
      seq(|plans|, i requires 0 <= i < |plans| reads this, plans => plans[i].flat)
    }

    /** An empty plan for each event type. */
    constructor (events: nat, hooks: Hooks<S, E, C, N, A, M>)
      ensures Valid() && |plans| == events && this.hooks == hooks
      ensures forall i :: 0 <= i < events ==> fresh(plans[i]) && plans[i].flat == map[]
    {
      var ps: seq<Plan<S, E, C>> := [];
      for k := 0 to events
        invariant |ps| == k
        invariant forall i :: 0 <= i < k ==>
                    fresh(ps[i]) && ps[i].Valid() && ps[i].encoding == hooks.encoding && ps[i].flat == map[]
        invariant forall i, j :: 0 <= i < j < k ==> ps[i] != ps[j]
      {
        var plan := new Plan<S, E, C>(hooks.encoding);
        ps := ps + [plan];
      }
      this.hooks := hooks;
      this.plans := ps;
    }

    /** One turn of the broadcasting loop. */
    method Handle(c: Command<S, C, N>) returns (sent: seq<(ListenerId, M)>)
      requires Valid()
      modifies plans
      ensures Valid()
      ensures Flats() == Step(hooks, old(Flats()), c)
      ensures Enumerates(sent, Expected(hooks, old(Flats()), c))
    {
      hide NoneEmpty, Represents, Enumerates, Deliveries, Closed;
      EnumeratesNone<M>();
      sent := [];
      match c {
        case Register(s, id, connection) =>
          var e := hooks.eventOf(s);
          if e < |plans| {
            var displaced := plans[e].Insert(hooks.broadcasting(s), id, connection);
          }
        case Unregister(e, id) =>
          if e < |plans| {
            var removed := plans[e].Remove(id);
          }
        case Notify(n, closed) =>
          var e := hooks.eventOfNotification(n);
          if e < |plans| {
            sent := plans[e].Broadcast(s => hooks.apply(n, s), hooks.into, closed);
          }
      }
    }

    /** Any run of the broadcaster: the plans are the flat maps that the commands describe, and
        each notification reached exactly the listeners registered for it at that time. */
    method RunAll(cs: seq<Command<S, C, N>>) returns (logs: seq<seq<(ListenerId, M)>>)
      requires Valid()
      modifies plans
      ensures Valid()
      ensures Flats() == Run(hooks, old(Flats()), cs)
      ensures |logs| == |cs|
      ensures forall i :: 0 <= i < |cs| ==>
                Enumerates(logs[i], Expected(hooks, Run(hooks, old(Flats()), cs[..i]), cs[i]))
    {
      hide NoneEmpty, Represents, Enumerates, Deliveries, Step, Expected;
      logs := [];
      ghost var start := Flats();
      for k := 0 to |cs|
        invariant Valid() && |logs| == k
        invariant Flats() == Run(hooks, start, cs[..k])
        invariant forall i :: 0 <= i < k ==> Enumerates(logs[i], Expected(hooks, Run(hooks, start, cs[..i]), cs[i]))
      {
        var sent := Handle(cs[k]);
        logs := logs + [sent];
        assert cs[..k + 1][..k] == cs[..k];
      }
      assert cs[..|cs|] == cs;
    }
  }

  lemma EnumeratesNone<M>()
    ensures Enumerates<M>([], map[])
  {
  }
}
