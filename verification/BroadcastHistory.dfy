/** What a run of the broadcaster comes to, told from its commands alone. */
module BroadcastHistory {
  import opened Options
  import opened Broadcast

  /** The command registers the listener for the event. */
  ghost predicate Registers<S, E, C, N, A, M>(h: Hooks<S, E, C, N, A, M>, c: Command<S, C, N>, e: nat, id: ListenerId) {
    c.Register? && c.id == id && h.eventOf(c.subscription) == e
  }

  /** The command takes away a listener that holds the subscription s: it unregisters the
      listener, or it is a notification that reaches it on a closed connection. */
  ghost predicate Ends<S, E, C, N, A, M>(h: Hooks<S, E, C, N, A, M>, c: Command<S, C, N>, e: nat, id: ListenerId,
                                         s: S) {
    || (c.Unregister? && c.event == e && c.id == id)
    || (c.Notify? && h.eventOfNotification(c.notification) == e && c.closed(id) && h.apply(c.notification, s).Some?)
  }

  /** No command from a point on registers the listener again or takes it away. */
  ghost predicate Lasts<S, E, C, N, A, M>(h: Hooks<S, E, C, N, A, M>, cs: seq<Command<S, C, N>>, e: nat,
                                          id: ListenerId, s: S, from: nat) {
    forall j :: from <= j < |cs| ==> !Registers(h, cs[j], e, id) && !Ends(h, cs[j], e, id, s)
  }

  /** The registration at i is the listener's last one for the event and still stands. */
  ghost predicate Stands<S, E, C, N, A, M>(h: Hooks<S, E, C, N, A, M>, cs: seq<Command<S, C, N>>, e: nat,
                                           id: ListenerId, i: nat) {
    i < |cs| && Registers(h, cs[i], e, id) && Lasts(h, cs, e, id, h.broadcasting(cs[i].subscription), i + 1)
  }

  lemma StepEntry<S, E, C, N, A, M>(h: Hooks<S, E, C, N, A, M>, flats: seq<map<ListenerId, (S, C)>>,
                                    c: Command<S, C, N>, e: nat, id: ListenerId)
    requires e < |flats|
    ensures var after := Step(h, flats, c);
            && |after| == |flats|
            && (Registers(h, c, e, id) ==>
                  id in after[e] && after[e][id] == (h.broadcasting(c.subscription), c.connection))
            && (!Registers(h, c, e, id) && id !in flats[e] ==> id !in after[e])
            && (!Registers(h, c, e, id) && id in flats[e] ==>
                  if Ends(h, c, e, id, flats[e][id].0) then id !in after[e]
                  else id in after[e] && after[e][id] == flats[e][id])
  {
  }

  /** A listener has an entry exactly when its last registration, or the entry it began with,
      still stands, and then the entry is that one. */
  lemma {:induction false} RunHistory<S, E, C, N, A, M>(h: Hooks<S, E, C, N, A, M>, flats: seq<map<ListenerId, (S, C)>>,
                                                        cs: seq<Command<S, C, N>>, e: nat, id: ListenerId)
    requires e < |flats|
    ensures |Run(h, flats, cs)| == |flats|
    ensures forall i: nat :: Stands(h, cs, e, id, i) ==>
              && id in Run(h, flats, cs)[e]
              && Run(h, flats, cs)[e][id] == (h.broadcasting(cs[i].subscription), cs[i].connection)
    ensures id in flats[e] && Lasts(h, cs, e, id, flats[e][id].0, 0) ==>
              id in Run(h, flats, cs)[e] && Run(h, flats, cs)[e][id] == flats[e][id]
    ensures id in Run(h, flats, cs)[e] ==>
              || (exists i: nat :: Stands(h, cs, e, id, i))
              || (id in flats[e] && Lasts(h, cs, e, id, flats[e][id].0, 0))
  {
    hide Step;
    if cs != [] {
      var n := |cs| - 1;
      var prev, c := cs[..n], cs[n];
      RunHistory(h, flats, prev, e, id);
      StepEntry(h, Run(h, flats, prev), c, e, id);
      forall i: nat { StandsNext(h, cs, e, id, i); }
      if id in flats[e] { LastsNext(h, cs, e, id, flats[e][id].0, 0); }
      if Registers(h, c, e, id) {
        assert Stands(h, cs, e, id, n);
      } else if i: nat :| Stands(h, prev, e, id, i) {
        assert id in Run(h, flats, cs)[e] ==> Stands(h, cs, e, id, i);
      }
    }
  }

  lemma LastsNext<S, E, C, N, A, M>(h: Hooks<S, E, C, N, A, M>, cs: seq<Command<S, C, N>>, e: nat, id: ListenerId,
                                    s: S, from: nat)
    requires from < |cs|
    ensures var n := |cs| - 1;
            Lasts(h, cs, e, id, s, from) <==>
              Lasts(h, cs[..n], e, id, s, from) && !Registers(h, cs[n], e, id) && !Ends(h, cs[n], e, id, s)
  {
    hide Registers, Ends;
    var n := |cs| - 1;
    assert forall j :: 0 <= j < n ==> cs[..n][j] == cs[j];
  }

  lemma StandsNext<S, E, C, N, A, M>(h: Hooks<S, E, C, N, A, M>, cs: seq<Command<S, C, N>>, e: nat, id: ListenerId,
                                     i: nat)
    requires cs != []
    ensures var n := |cs| - 1;
            Stands(h, cs, e, id, i) <==>
              if i == n then Registers(h, cs[n], e, id)
              else
                && Stands(h, cs[..n], e, id, i) && !Registers(h, cs[n], e, id)
                && !Ends(h, cs[n], e, id, h.broadcasting(cs[..n][i].subscription))
  {
    hide Ends;
    var n := |cs| - 1;
    if i < n {
      assert cs[..n][i] == cs[i];
      if cs[i].Register? { LastsNext(h, cs, e, id, h.broadcasting(cs[i].subscription), i + 1); }
    }
  }

  /** The message is in the log. */
  ghost predicate Logged<M>(log: seq<(ListenerId, M)>, id: ListenerId, m: M) {
    exists j :: 0 <= j < |log| && log[j] == (id, m)
  }

  /** The notification c applies to the registration r, and m is what it makes of it. */
  ghost predicate Meant<S, E, C, N, A, M>(h: Hooks<S, E, C, N, A, M>, c: Command<S, C, N>, r: Command<S, C, N>, m: M)
    requires c.Notify? && r.Register?
  {
    var applied := h.apply(c.notification, h.broadcasting(r.subscription));
    applied.Some? && m == h.into(applied.value, h.encoding(r.connection))
  }

  /** Command k is a notification, and m is meant for the listener's standing registration. */
  ghost predicate Called<S, E, C, N, A, M>(h: Hooks<S, E, C, N, A, M>, events: nat, cs: seq<Command<S, C, N>>, k: nat,
                                           id: ListenerId, m: M)
    requires k < |cs|
  {
    && cs[k].Notify? && h.eventOfNotification(cs[k].notification) < events
    && exists i: nat ::
         Stands(h, cs[..k], h.eventOfNotification(cs[k].notification), id, i) && Meant(h, cs[k], cs[i], m)
  }

  /** From empty plans, a log holds a message exactly when the listener's last registration
      for that event stands and the message is meant for it. */
  lemma LogHistory<S, E, C, N, A, M>(h: Hooks<S, E, C, N, A, M>, flats: seq<map<ListenerId, (S, C)>>,
                                     cs: seq<Command<S, C, N>>, k: nat, log: seq<(ListenerId, M)>, id: ListenerId, m: M)
    requires k < |cs| && Enumerates(log, Expected(h, Run(h, flats, cs[..k]), cs[k]))
    requires forall e :: 0 <= e < |flats| ==> flats[e] == map[]
    ensures Logged(log, id, m) <==> Called(h, |flats|, cs, k, id, m)
  {
    hide Run, Lasts;
    RunLength(h, flats, cs[..k]);
    EnumeratesHolds(log, Expected(h, Run(h, flats, cs[..k]), cs[k]), id, m);
    if cs[k].Notify? {
      var e := h.eventOfNotification(cs[k].notification);
      if e < |flats| {
        RunHistory(h, flats, cs[..k], e, id);
        assert forall i :: 0 <= i < k ==> cs[..k][i] == cs[i];
      }
    }
  }

  lemma EnumeratesHolds<M>(log: seq<(ListenerId, M)>, expected: map<ListenerId, M>, id: ListenerId, m: M)
    requires Enumerates(log, expected)
    ensures Logged(log, id, m) <==> id in expected && expected[id] == m
  {
    if id in expected && expected[id] == m {
      var k :| 0 <= k < |log| && log[k].0 == id;
      assert log[k] == (id, m);
    }
  }

  lemma {:induction false} RunLength<S, E, C, N, A, M>(h: Hooks<S, E, C, N, A, M>, flats: seq<map<ListenerId, (S, C)>>,
                                                       cs: seq<Command<S, C, N>>)
    ensures |Run(h, flats, cs)| == |flats|
  {
    if cs != [] { RunLength(h, flats, cs[..|cs| - 1]); }
  }

  /** A listener that has unregistered hears nothing of that event until it registers again. */
  lemma SilentAfterUnregister<S, E, C, N, A, M>(h: Hooks<S, E, C, N, A, M>, events: nat, cs: seq<Command<S, C, N>>,
                                                u: nat, k: nat, id: ListenerId, m: M)
    requires u < k < |cs| && cs[k].Notify?
    requires cs[u] == Unregister(h.eventOfNotification(cs[k].notification), id)
    requires forall j :: u < j < k ==> !Registers(h, cs[j], h.eventOfNotification(cs[k].notification), id)
    ensures !Called(h, events, cs, k, id, m)
  {
    var e := h.eventOfNotification(cs[k].notification);
    if i: nat :| Stands(h, cs[..k], e, id, i) {
      var s := h.broadcasting(cs[i].subscription);
      assert Ends(h, cs[..k][u], e, id, s);
      assert Registers(h, cs[i], e, id);
    }
  }

  /** Each log holds exactly the messages called for, no listener twice. */
  ghost predicate Faithful<S, E, C, N, A, M(!new)>(h: Hooks<S, E, C, N, A, M>, events: nat, cs: seq<Command<S, C, N>>,
                                                   logs: seq<seq<(ListenerId, M)>>)
    requires |logs| == |cs|
  {
    forall k :: 0 <= k < |cs| ==>
      && (forall i, j :: 0 <= i < j < |logs[k]| ==> logs[k][i].0 != logs[k][j].0)
      && (forall id, m :: Logged(logs[k], id, m) <==> Called(h, events, cs, k, id, m))
  }

  lemma LogsFaithful<S, E, C, N, A, M(!new)>(h: Hooks<S, E, C, N, A, M>, flats: seq<map<ListenerId, (S, C)>>,
                                             cs: seq<Command<S, C, N>>, logs: seq<seq<(ListenerId, M)>>)
    requires |logs| == |cs| && forall e :: 0 <= e < |flats| ==> flats[e] == map[]
    requires forall k :: 0 <= k < |cs| ==> Enumerates(logs[k], Expected(h, Run(h, flats, cs[..k]), cs[k]))
    ensures Faithful(h, |flats|, cs, logs)
  {
    hide Run, Expected, Enumerates, Called, Logged;
    forall k | 0 <= k < |cs|
      ensures forall i, j :: 0 <= i < j < |logs[k]| ==> logs[k][i].0 != logs[k][j].0
      ensures forall id, m :: Logged(logs[k], id, m) <==> Called(h, |flats|, cs, k, id, m)
    {
      EnumeratesOnce(logs[k], Expected(h, Run(h, flats, cs[..k]), cs[k]));
      forall id, m ensures Logged(logs[k], id, m) <==> Called(h, |flats|, cs, k, id, m) {
        LogHistory(h, flats, cs, k, logs[k], id, m);
      }
    }
  }

  lemma EnumeratesOnce<M>(log: seq<(ListenerId, M)>, expected: map<ListenerId, M>)
    requires Enumerates(log, expected)
    ensures forall i, j :: 0 <= i < j < |log| ==> log[i].0 != log[j].0
  {
  }

  /** A broadcaster from its start: what each command makes it send. */
  method RunFromStart<S(==, !new), E(==, !new), C, N, A, M(!new)>(events: nat, hooks: Hooks<S, E, C, N, A, M>,
                                                                  cs: seq<Command<S, C, N>>)
    returns (logs: seq<seq<(ListenerId, M)>>)
    ensures |logs| == |cs| && Faithful(hooks, events, cs, logs)
  {
    hide Run, Expected, Enumerates, Faithful;
    var broadcaster := new Broadcaster(events, hooks);
    ghost var flats := broadcaster.Flats();
    logs := broadcaster.RunAll(cs);
    LogsFaithful(hooks, flats, cs, logs);
  }
}
