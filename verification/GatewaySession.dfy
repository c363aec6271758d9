/** A session that collects evidence and fetches stored evidence again. Fetching again costs nothing: no
    call and no row is counted, so the budget of a target bounds what is collected, not what is sent. */
module GatewaySession {
  import opened Options
  import opened Gateway
  import E = EvidenceStore

  type Items<V> = seq<E.Item<Payload<V>>>

  /** A collect call with the reference and the two clock readings of its storing, or a retrieval;
      `sendable` is again whether the envelope passes the final audit and the size limit. */
  datatype Request<F> =
    | Ask(call: Call<F>, ref: string, now: int, stamp: int)
    | Fetch(alias: string, ref: string, now: int, sendable: bool)

  datatype Reply<V> = Collected(response: Response<V>) | Denied(key: Key) | NotFound | Unsendable | Sent(payload: Payload<V>)

  /** The session's counters, its name, the settings of the store and what it holds. */
  datatype State<V> = State(counters: Counters, items: Items<V>)

  datatype Setting = Setting(cfg: Config, session: string, ttl: int, max: nat)

  function PutOf<F, V>(g: Setting, q: Request<F>, p: Payload<V>): E.Op<Payload<V>>
    requires q.Ask?
  {
    E.Op.Put(q.now, E.Item(q.ref, g.session, q.call.alias, q.call.collector, p, E.Digest(p), q.stamp))
  }

  function StoredBy<F, V>(g: Setting, items: Items<V>, q: Request<F>, r: Response<V>): Items<V>
    requires q.Ask?
  {
    if r.Delivered? || r.Withheld? then E.After(items, g.ttl, g.max, PutOf(g, q, r.payload)) else items
  }

  /** Why a retrieval does not reach the store. */
  function Barred(cfg: Config, alias: string): Option<Key> {
    if alias !in cfg.targets then Some(TargetUnknown)
    else if !cfg.targets[alias].enabled then Some(TargetDisabled)
    else None
  }

  function Found<V(==)>(g: Setting, items: Items<V>, alias: string, ref: string, now: int): Option<E.Item<Payload<V>>> {
    E.Answer(items, g.ttl, E.Op.Get(now, ref, g.session, alias))
  }

  function Retrieved<V(==)>(g: Setting, items: Items<V>, alias: string, ref: string, now: int, sendable: bool): (Items<V>, Reply<V>) {
    if Barred(g.cfg, alias).Some? then (items, Denied(Barred(g.cfg, alias).value))
    else
      var e := Found(g, items, alias, ref, now);
      (E.Live(items, now, g.ttl),
       if e.None? then NotFound else if !sendable then Unsendable else Sent(e.value.payload))
  }

  function Handled<F, V(==)>(judge: F -> Verdict<V>, g: Setting, s: State<V>, q: Request<F>): (State<V>, Reply<V>) {
    match q
    case Ask(c, _, _, _) =>
      var (t, r) := Step(judge, g.cfg, s.counters, c);
      (State(t, StoredBy(g, s.items, q, r)), Collected(r))
    case Fetch(alias, ref, now, sendable) =>
      var (items, r) := Retrieved(g, s.items, alias, ref, now, sendable);
      (s.(items := items), r)
  }

  /** `get_evidence`. */
  method GetEvidence<V(==)>(g: Setting, store: E.Store<Payload<V>>, alias: string, ref: string, now: int, sendable: bool)
    returns (r: Reply<V>)
    requires store.ttl == g.ttl && store.max == g.max
    modifies store
    ensures (store.items, r) == Retrieved(g, old(store.items), alias, ref, now, sendable)
  {
    if alias !in g.cfg.targets {
      return Denied(TargetUnknown);
    }
    if !g.cfg.targets[alias].enabled {
      return Denied(TargetDisabled);
    }
    var e := store.Get(now, ref, g.session, alias);
    if e.None? {
      return NotFound;
    }
    r := if sendable then Sent(e.value.payload) else Unsendable;
  }

  /** A collect call and the storing of what it collected, whether or not the response can be sent. */
  method CollectAndStore<F, V(==)>(judge: F -> Verdict<V>, g: Setting, session: Session, store: E.Store<Payload<V>>, q: Request<F>)
    returns (r: Response<V>)
    requires q.Ask? && store.ttl == g.ttl && store.max == g.max >= 1
    modifies session, store
    ensures (State(session.View(), store.items), Collected(r)) == Handled(judge, g, State(old(session.View()), old(store.items)), q)
  {
    hide Step;
    r := Collect(judge, g.cfg, session, q.call);
    if r.Delivered? || r.Withheld? {
      store.Put(q.now, q.stamp, q.ref, g.session, q.call.alias, q.call.collector, r.payload);
    }
  }

  // ---- whole sessions ----

  function Run<F, V(==)>(judge: F -> Verdict<V>, g: Setting, reqs: seq<Request<F>>): State<V> {
    if reqs == [] then State(START, [])
    else Handled(judge, g, Run(judge, g, reqs[..|reqs| - 1]), reqs[|reqs| - 1]).0
  }

  function ReplyTo<F, V(==)>(judge: F -> Verdict<V>, g: Setting, reqs: seq<Request<F>>, i: nat): Reply<V>
    requires i < |reqs|
  {
    Handled(judge, g, Run(judge, g, reqs[..i]), reqs[i]).1
  }

  /** The collect calls of a session. */
  function CallsOf<F>(reqs: seq<Request<F>>): seq<Call<F>> {
    if reqs == [] then []
    else CallsOf(reqs[..|reqs| - 1]) + if reqs[|reqs| - 1].Ask? then [reqs[|reqs| - 1].call] else []
  }

  function AliasOf<F>(q: Request<F>): string {
    match q
    case Ask(c, _, _, _) => c.alias
    case Fetch(alias, _, _, _) => alias
  }

  function RowsOf<V>(r: Reply<V>): nat {
    match r
    case Collected(response) => RowsIn(response)
    case Sent(p) => |p.rows|
    case _ => 0
  }

  /** Rows of a target that left the gateway. */
  function RowsSent<F, V(==)>(judge: F -> Verdict<V>, g: Setting, reqs: seq<Request<F>>, alias: string): nat {
    if reqs == [] then 0
    else
      var n := |reqs| - 1;
      RowsSent(judge, g, reqs[..n], alias) + if AliasOf(reqs[n]) == alias then RowsOf(ReplyTo(judge, g, reqs, n)) else 0
  }

  /** Those of them that retrievals sent. */
  function RowsAgain<F, V(==)>(judge: F -> Verdict<V>, g: Setting, reqs: seq<Request<F>>, alias: string): nat {
    if reqs == [] then 0
    else
      var n := |reqs| - 1;
      RowsAgain(judge, g, reqs[..n], alias)
      + if reqs[n].Fetch? && reqs[n].alias == alias then RowsOf(ReplyTo(judge, g, reqs, n)) else 0
  }

  lemma CallsOfLast<F>(reqs: seq<Request<F>>)
    requires reqs != []
    ensures var n, calls := |reqs| - 1, CallsOf(reqs);
      if reqs[n].Ask? then calls != [] && calls[..|calls| - 1] == CallsOf(reqs[..n]) && calls[|calls| - 1] == reqs[n].call
      else calls == CallsOf(reqs[..n])
  {
    var n, calls := |reqs| - 1, CallsOf(reqs);
    assert calls == CallsOf(reqs[..n]) + if reqs[n].Ask? then [reqs[n].call] else [];
  }

  /** Retrievals do not touch the counters. */
  lemma {:induction false} CountersOfRun<F, V>(judge: F -> Verdict<V>, g: Setting, reqs: seq<Request<F>>)
    ensures Run(judge, g, reqs).counters == After(judge, g.cfg, CallsOf(reqs))
  {
    hide Step, StoredBy, Retrieved;
    if reqs != [] {
      var n := |reqs| - 1;
      CountersOfRun(judge, g, reqs[..n]);
      CallsOfLast(reqs);
    }
  }

  lemma {:induction false} SentInTwoWays<F, V>(judge: F -> Verdict<V>, g: Setting, reqs: seq<Request<F>>, alias: string)
    ensures RowsSent(judge, g, reqs, alias) == RowsDelivered(judge, g.cfg, CallsOf(reqs), alias) + RowsAgain(judge, g, reqs, alias)
  {
    hide Step, StoredBy, Retrieved, RowsIn;
    if reqs != [] {
      var n := |reqs| - 1;
      SentInTwoWays(judge, g, reqs[..n], alias);
      CountersOfRun(judge, g, reqs[..n]);
      CallsOfLast(reqs);
    }
  }

  /** Over every session: the rows collected for a target are within its budget, and every row sent beyond
      that was sent by a retrieval. */
  lemma CollectedWithinBudget<F, V>(judge: F -> Verdict<V>, g: Setting, reqs: seq<Request<F>>, alias: string)
    requires alias in g.cfg.targets
    ensures Used(Run(judge, g, reqs).counters.targetRows, alias) <= Max(0, g.cfg.targets[alias].maxRows)
    ensures RowsSent(judge, g, reqs, alias) - RowsAgain(judge, g, reqs, alias) <= Max(0, g.cfg.targets[alias].maxRows)
  {
    CountersOfRun(judge, g, reqs);
    SentInTwoWays(judge, g, reqs, alias);
    BudgetsHold(judge, g.cfg, CallsOf(reqs), alias);
  }

  // ---- what a retrieval returns was collected ----

  /** Request `i` collected this payload for the target and stored it under the reference. */
  ghost predicate CollectedBy<F, V>(judge: F -> Verdict<V>, g: Setting, reqs: seq<Request<F>>, i: nat, e: E.Item<Payload<V>>) {
    && i < |reqs| && reqs[i].Ask? && reqs[i].call.alias == e.target && reqs[i].ref == e.ref
    && var r := ReplyTo(judge, g, reqs, i).response;
    && (r.Delivered? || r.Withheld?) && r.payload == e.payload
  }

  lemma AfterHolds<V>(items: Items<V>, ttl: int, max: nat, op: E.Op<Payload<V>>)
    requires op.Put? || op.Get?
    ensures forall e <- E.After(items, ttl, max, op) :: e in items || (op.Put? && e == op.item)
  {
    hide E.Live, E.Find, E.Oldest;
    E.LiveIsPart(items, op.now, ttl);
  }

  lemma {:induction false} StoredWasCollected<F, V>(judge: F -> Verdict<V>, g: Setting, reqs: seq<Request<F>>, e: E.Item<Payload<V>>)
    returns (i: nat)
    requires e in Run(judge, g, reqs).items
    ensures CollectedBy(judge, g, reqs, i, e)
  {
    hide Step, E.After, E.Live, Found;
    var n := |reqs| - 1;
    var before, q := Run(judge, g, reqs[..n]), reqs[n];
    i := n;
    if e in before.items {
      i := StoredWasCollected(judge, g, reqs[..n], e);
      assert reqs[..n][..i] == reqs[..i];
    } else if q.Ask? {
      var r := Step(judge, g.cfg, before.counters, q.call).1;
      if r.Delivered? || r.Withheld? {
        AfterHolds(before.items, g.ttl, g.max, PutOf(g, q, r.payload));
      }
    } else {
      E.LiveIsPart(before.items, q.now, g.ttl);
    }
  }

  /** Whatever a retrieval sends was collected before, for the same target and under that reference. */
  lemma SentAgainWasCollected<F, V>(judge: F -> Verdict<V>, g: Setting, reqs: seq<Request<F>>, n: nat) returns (i: nat, e: E.Item<Payload<V>>)
    requires n < |reqs| && reqs[n].Fetch? && ReplyTo(judge, g, reqs, n).Sent?
    ensures i < n && CollectedBy(judge, g, reqs[..n], i, e)
    ensures e.target == reqs[n].alias && e.ref == reqs[n].ref && ReplyTo(judge, g, reqs, n) == Sent(e.payload)
  {
    hide Run, E.Live, E.Find;
    var items, q := Run(judge, g, reqs[..n]).items, reqs[n];
    e := Found(g, items, q.alias, q.ref, q.now).value;
    E.LiveIsPart(items, q.now, g.ttl);
    assert e in E.Live(items, q.now, g.ttl);
    i := StoredWasCollected(judge, g, reqs[..n], e);
  }

  // ---- how many rows retrievals can send ----

  /** At this time some stored evidence of the target has rows and can be fetched. */
  ghost predicate Fetchable<V>(g: Setting, items: Items<V>, alias: string, now: int) {
    Barred(g.cfg, alias).None? && exists ref :: Found(g, items, alias, ref, now).Some? && |Found(g, items, alias, ref, now).value.payload.rows| > 0
  }

  /** Only retrievals of the target, at this time. */
  ghost predicate AllFetch<F>(more: seq<Request<F>>, alias: string, now: int) {
    forall q <- more :: q.Fetch? && q.alias == alias && q.now == now
  }

  lemma {:induction false} LiveTwice<P>(items: seq<E.Item<P>>, now: int, ttl: int)
    ensures E.Live(E.Live(items, now, ttl), now, ttl) == E.Live(items, now, ttl)
  {
    if items != [] {
      LiveTwice(items[1..], now, ttl);
    }
  }

  /** A retrieval changes nothing about what can be fetched at that time. */
  lemma FetchKeepsFound<F, V>(judge: F -> Verdict<V>, g: Setting, s: State<V>, q: Request<F>, ref: string)
    requires q.Fetch?
    ensures Found(g, Handled(judge, g, s, q).0.items, q.alias, ref, q.now) == Found(g, s.items, q.alias, ref, q.now)
  {
    hide E.Live, E.Lookup;
    LiveTwice(s.items, q.now, g.ttl);
  }

  lemma {:induction false} FoundAfterFetches<F, V>(judge: F -> Verdict<V>, g: Setting, reqs: seq<Request<F>>, more: seq<Request<F>>, alias: string, now: int, ref: string)
    requires AllFetch(more, alias, now)
    ensures Found(g, Run(judge, g, reqs + more).items, alias, ref, now) == Found(g, Run(judge, g, reqs).items, alias, ref, now)
  {
    hide Found, Handled;
    if more == [] {
      assert reqs + more == reqs;
    } else {
      var n := |more| - 1;
      FoundAfterFetches(judge, g, reqs, more[..n], alias, now, ref);
      assert (reqs + more)[..|reqs + more| - 1] == reqs + more[..n];
      FetchKeepsFound(judge, g, Run(judge, g, reqs + more[..n]), more[n], ref);
    }
  }

  lemma OneMore<F, V>(judge: F -> Verdict<V>, g: Setting, reqs: seq<Request<F>>, q: Request<F>, alias: string)
    requires q.Fetch? && q.alias == alias
    ensures RowsSent(judge, g, reqs + [q], alias) == RowsSent(judge, g, reqs, alias)
      + RowsOf(Retrieved(g, Run(judge, g, reqs).items, alias, q.ref, q.now, q.sendable).1)
  {
    hide Run, Retrieved;
    assert (reqs + [q])[..|reqs|] == reqs;
  }

  lemma {:induction false} NothingToFetch<F, V>(judge: F -> Verdict<V>, g: Setting, reqs: seq<Request<F>>, more: seq<Request<F>>, alias: string, now: int)
    requires AllFetch(more, alias, now) && !Fetchable(g, Run(judge, g, reqs).items, alias, now)
    ensures RowsSent(judge, g, reqs + more, alias) == RowsSent(judge, g, reqs, alias)
  {
    hide Found, Run, RowsSent;
    if more == [] {
      assert reqs + more == reqs;
    } else {
      var n := |more| - 1;
      NothingToFetch(judge, g, reqs, more[..n], alias, now);
      assert reqs + more == reqs + more[..n] + [more[n]];
      FoundAfterFetches(judge, g, reqs, more[..n], alias, now, more[n].ref);
      OneMore(judge, g, reqs + more[..n], more[n], alias);
    }
  }

  ghost function Repeat<F>(q: Request<F>, k: nat): (more: seq<Request<F>>)
    ensures |more| == k && forall x <- more :: x == q
  {
    seq(k, i => q)
  }

  lemma {:induction false} EachSendsAgain<F, V>(judge: F -> Verdict<V>, g: Setting, reqs: seq<Request<F>>, q: Request<F>, k: nat)
    requires q.Fetch? && q.sendable && Barred(g.cfg, q.alias).None?
    requires var e := Found(g, Run(judge, g, reqs).items, q.alias, q.ref, q.now); e.Some? && |e.value.payload.rows| > 0
    ensures RowsSent(judge, g, reqs + Repeat(q, k), q.alias) >= RowsSent(judge, g, reqs, q.alias) + k
  {
    hide Found, Run, RowsSent;
    if k == 0 {
      assert reqs + Repeat(q, k) == reqs;
    } else {
      EachSendsAgain(judge, g, reqs, q, k - 1);
      assert reqs + Repeat(q, k) == reqs + Repeat(q, k - 1) + [q];
      FoundAfterFetches(judge, g, reqs, Repeat(q, k - 1), q.alias, q.now, q.ref);
      OneMore(judge, g, reqs + Repeat(q, k - 1), q, q.alias);
    }
  }

  /** Exactly when the rows sent for a target pass a bound by retrievals alone: they are past it already, or some
      stored evidence of the target that has rows can be fetched. No budget enters. */
  lemma SentBeyondAnyBound<F, V>(judge: F -> Verdict<V>, g: Setting, reqs: seq<Request<F>>, alias: string, now: int, bound: nat)
    ensures (exists more :: AllFetch(more, alias, now) && RowsSent(judge, g, reqs + more, alias) > bound)
      <==> RowsSent(judge, g, reqs, alias) > bound || Fetchable(g, Run(judge, g, reqs).items, alias, now)
  {
    hide Found, Run, RowsSent;
    if RowsSent(judge, g, reqs, alias) > bound {
      assert reqs + [] == reqs && AllFetch<F>([], alias, now);
    } else if Fetchable(g, Run(judge, g, reqs).items, alias, now) {
      var ref :| Found(g, Run(judge, g, reqs).items, alias, ref, now).Some?
        && |Found(g, Run(judge, g, reqs).items, alias, ref, now).value.payload.rows| > 0;
      var q := Request<F>.Fetch(alias, ref, now, true);
      EachSendsAgain(judge, g, reqs, q, bound + 1);
      assert AllFetch(Repeat(q, bound + 1), alias, now);
    } else {
      forall more | AllFetch(more, alias, now)
        ensures RowsSent(judge, g, reqs + more, alias) <= bound
      {
        NothingToFetch(judge, g, reqs, more, alias, now);
      }
    }
  }

  // ---- an input beyond the budget ----

  lemma {:induction false} FindLive<P>(items: seq<E.Item<P>>, ref: string, now: int, ttl: int)
    requires E.Find(items, ref) < |items| && !E.Expired(items[E.Find(items, ref)], now, ttl)
    ensures var live := E.Live(items, now, ttl);
      E.Find(live, ref) < |live| && live[E.Find(live, ref)] == items[E.Find(items, ref)]
  {
    hide E.Expired;
    if items[0].ref != ref {
      FindLive(items[1..], ref, now, ttl);
      var rest := E.Live(items[1..], now, ttl);
      assert ([items[0]] + rest)[1..] == rest;
    }
  }

  lemma FindAssigned<P>(items: seq<E.Item<P>>, e: E.Item<P>)
    ensures var after := E.Assigned(items, e);
      E.Find(after, e.ref) < |after| && after[E.Find(after, e.ref)] == e
  {
    hide E.Find;
    var after := E.Assigned(items, e);
    assert after[E.Find(items, e.ref)] == e;
  }

  /** What a collect call has just stored can be fetched as long as it has not expired. */
  lemma FetchableAfterCollect<F, V>(judge: F -> Verdict<V>, g: Setting, s: State<V>, q: Request<F>, now: int)
    requires q.Ask? && now - q.stamp <= g.ttl
    requires var r := Step(judge, g.cfg, s.counters, q.call).1; r.Delivered? || r.Withheld?
    ensures var r := Step(judge, g.cfg, s.counters, q.call).1;
      var e := Found(g, Handled(judge, g, s, q).0.items, q.call.alias, q.ref, now);
      e.Some? && e.value.payload == r.payload
    ensures Barred(g.cfg, q.call.alias).None?
  {
    hide E.Live, E.Evicted, E.Assigned, E.Find, Sanitized, RowCap, Fetched;
    var items := Handled(judge, g, s, q).0.items;
    var op := PutOf(g, q, Step(judge, g.cfg, s.counters, q.call).1.payload);
    FindAssigned(E.Evicted(E.Live(s.items, q.now, g.ttl), g.max), op.item);
    FindLive(items, q.ref, now, g.ttl);
  }

  const ONE_ROW := Target(true, {"c"}, 1, 1, Fixture)
  const SMALL := Setting(Config(map["t" := ONE_ROW], map["c" := Collector("c", 1)], 1, 1), "s", 900, 1)
  const ASK: Request<char> := Ask(Call("t", "c", None, World(true, Source([['x']]), true)), "r", 0, 0)

  function KeepAll(f: char): Verdict<char> {
    Kept(f)
  }

  lemma OneClean<F, V>(judge: F -> Verdict<V>, f: F)
    requires judge(f).Kept?
    ensures Clean(judge, [f]) == [judge(f).value]
  {
    assert [f][..0] == [];
  }

  lemma OneRow<F, V>(judge: F -> Verdict<V>, f: F)
    requires judge(f).Kept?
    ensures CleanRows(judge, [[f]]) == [[judge(f).value]]
  {
    hide Clean;
    OneClean(judge, f);
    assert [[f]][..0] == [];
  }

  lemma OneRowKept<F, V>(judge: F -> Verdict<V>, f: F)
    requires judge(f).Kept?
    ensures |Sanitized(judge, [[f]], 1, 1).rows| == 1
  {
    hide CleanRows, InvalidIn, Width;
    OneRow(judge, f);
    assert Take([[f]], 1) == [[f]];
  }

  lemma OneCollected()
    ensures RowsIn(Step(KeepAll, SMALL.cfg, START, ASK.call).1) == 1
  {
    hide Sanitized;
    OneRowKept(KeepAll, 'x');
  }

  /** One row is allowed, one call collects it, one retrieval sends it again: two rows are sent. */
  lemma BeyondBudget()
    ensures RowsSent(KeepAll, SMALL, [ASK, Fetch("t", "r", 0, true)], "t") == 2 > SMALL.cfg.targets["t"].maxRows
  {
    hide Step, E.After, Found;
    var q := Request<char>.Fetch("t", "r", 0, true);
    OneCollected();
    assert [ASK] + [q] == [ASK, q] && [ASK][..0] == [];
    FetchableAfterCollect(KeepAll, SMALL, State(START, []), ASK, 0);
    OneMore(KeepAll, SMALL, [ASK], q, "t");
  }
}
