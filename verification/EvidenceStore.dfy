/** The bounded, expiring store of sanitized evidence. */
module EvidenceStore {
  import opened Options

  /** The digest of a payload; distinct payloads have distinct digests. */
  datatype Digest<P> = Digest(of: P)

  /** A stored entry; `t` is the clock reading when it was put. */
  datatype Item<P> = Item(ref: string, session: string, target: string, collector: string, payload: P, digest: Digest<P>, t: int)

  // ---- the operations on the entries, oldest first ----

  predicate Expired<P>(e: Item<P>, now: int, ttl: int) {
    now - e.t > ttl
  }

  function Live<P>(items: seq<Item<P>>, now: int, ttl: int): seq<Item<P>> {
    if items == [] then []
    else if Expired(items[0], now, ttl) then Live(items[1..], now, ttl)
    else [items[0]] + Live(items[1..], now, ttl)
  }

  /** The first of the entries with the least clock reading. */
  function Oldest<P>(items: seq<Item<P>>): (k: nat)
    requires items != []
    ensures k < |items|
    ensures forall i :: 0 <= i < |items| ==> items[k].t <= items[i].t
    ensures forall i :: 0 <= i < k ==> items[k].t < items[i].t
  {
    if |items| == 1 then 0
    else
      var k := Oldest(items[1..]) + 1;
      assert forall i :: 0 < i < |items| ==> items[i] == items[1..][i - 1];
      if items[0].t <= items[k].t then 0 else k
  }

  function Evicted<P>(items: seq<Item<P>>, max: nat): seq<Item<P>> {
    if |items| >= max && items != [] then items[..Oldest(items)] + items[Oldest(items) + 1..] else items
  }

  function Find<P>(items: seq<Item<P>>, ref: string): (k: nat)
    ensures k <= |items| && (k < |items| ==> items[k].ref == ref)
    ensures forall i :: 0 <= i < k ==> items[i].ref != ref
  {
    if items == [] || items[0].ref == ref then 0 else 1 + Find(items[1..], ref)
  }

  /** Assigning to a reference already in use replaces that entry in its place. */
  function Assigned<P>(items: seq<Item<P>>, e: Item<P>): seq<Item<P>> {
    var k := Find(items, e.ref);
    if k < |items| then items[k := e] else items + [e]
  }

  function WithoutSession<P>(items: seq<Item<P>>, session: string): seq<Item<P>> {
    if items == [] then []
    else (if items[0].session == session then [] else [items[0]]) + WithoutSession(items[1..], session)
  }

  function Lookup<P(==)>(items: seq<Item<P>>, ref: string, session: string, target: string): Option<Item<P>> {
    var k := Find(items, ref);
    if k < |items| && items[k].session == session && items[k].target == target && items[k].digest == Digest(items[k].payload)
    then Some(items[k]) else None
  }

  class Store<P(==)> {
    const ttl: int
    const max: nat
    var items: seq<Item<P>>

    constructor (ttl: int, max: nat)
      ensures items == [] && this.ttl == ttl && this.max == max
    {
      this.ttl, this.max := ttl, max;
      items := [];
    }

    method Purge(now: int)
      modifies this
      ensures items == Live(old(items), now, ttl)
    {
      var kept: seq<Item<P>> := [];
      for i := 0 to |items|
        invariant items == old(items)
        invariant kept + Live(items[i..], now, ttl) == Live(items, now, ttl)
      {
        assert items[i..][1..] == items[i + 1..];
        if !Expired(items[i], now, ttl) {
          kept := kept + [items[i]];
        }
      }
      items := kept;
    }

    /** `now` and `stamp` are the two clock readings of one put; `ref` is the random reference. */
    method Put(now: int, stamp: int, ref: string, session: string, target: string, collector: string, payload: P)
      requires max >= 1
      modifies this
      ensures items == After(old(items), ttl, max, Op.Put(now, Item(ref, session, target, collector, payload, Digest(payload), stamp)))
    {
      Purge(now);
      if |items| >= max {
        var k := Oldest(items);
        items := items[..k] + items[k + 1..];
      }
      items := Assigned(items, Item(ref, session, target, collector, payload, Digest(payload), stamp));
    }

    method Get(now: int, ref: string, session: string, target: string) returns (e: Option<Item<P>>)
      modifies this
      ensures items == After(old(items), ttl, max, Op.Get(now, ref, session, target))
      ensures e == Answer(old(items), ttl, Op.Get(now, ref, session, target))
    {
      Purge(now);
      e := Lookup(items, ref, session, target);
    }

    method ClearSession(session: string) returns (gone: nat)
      modifies this
      ensures items == After(old(items), ttl, max, Op.Clear(session))
      ensures gone == |old(items)| - |items|
    {
      var kept: seq<Item<P>> := [];
      gone := 0;
      for i := 0 to |items|
        invariant items == old(items)
        invariant kept + WithoutSession(items[i..], session) == WithoutSession(items, session)
        invariant gone + |kept| == i
      {
        assert items[i..][1..] == items[i + 1..];
        if items[i].session == session {
          gone := gone + 1;
        } else {
          kept := kept + [items[i]];
        }
      }
      items := kept;
    }
  }

  // ---- runs ----

  datatype Op<P> =
    | Put(now: int, item: Item<P>)
    | Get(now: int, ref: string, session: string, target: string)
    | Clear(session: string)

  function After<P>(items: seq<Item<P>>, ttl: int, max: nat, op: Op<P>): seq<Item<P>> {
    match op
    case Put(now, e) => Assigned(Evicted(Live(items, now, ttl), max), e)
    case Get(now, _, _, _) => Live(items, now, ttl)
    case Clear(session) => WithoutSession(items, session)
  }

  function Answer<P(==)>(items: seq<Item<P>>, ttl: int, op: Op<P>): Option<Item<P>>
    requires op.Get?
  {
    Lookup(Live(items, op.now, ttl), op.ref, op.session, op.target)
  }

  function Run<P>(ttl: int, max: nat, ops: seq<Op<P>>): seq<Item<P>> {
    if ops == [] then []
    else After(Run(ttl, max, ops[..|ops| - 1]), ttl, max, ops[|ops| - 1])
  }

  /** The entries put over a run, in order. */
  function Puts<P>(ops: seq<Op<P>>): seq<Item<P>> {
    if ops == [] then []
    else
      var op := ops[|ops| - 1];
      Puts(ops[..|ops| - 1]) + if op.Put? then [op.item] else []
  }

  // ---- what every run keeps ----

  lemma {:induction false} LiveIsPart<P>(items: seq<Item<P>>, now: int, ttl: int)
    ensures |Live(items, now, ttl)| <= |items|
    ensures forall e <- Live(items, now, ttl) :: e in items && !Expired(e, now, ttl)
  {
    if items != [] {
      LiveIsPart(items[1..], now, ttl);
    }
  }

  lemma {:induction false} WithoutSessionIsPart<P>(items: seq<Item<P>>, session: string)
    ensures |WithoutSession(items, session)| <= |items|
    ensures forall e <- WithoutSession(items, session) :: e in items && e.session != session
    ensures forall e <- items :: e.session != session ==> e in WithoutSession(items, session)
  {
    if items != [] {
      WithoutSessionIsPart(items[1..], session);
      assert forall e :: e in items <==> e == items[0] || e in items[1..];
    }
  }

  lemma PutIsPart<P>(items: seq<Item<P>>, e: Item<P>, max: nat)
    requires 1 <= max && |items| <= max
    ensures |Assigned(Evicted(items, max), e)| <= max
    ensures forall x <- Assigned(Evicted(items, max), e) :: x == e || x in items
  {
    hide Find, Oldest;
    var left := Evicted(items, max);
    assert |left| < max && forall x <- left :: x in items;
  }

  /** In every run, whatever the clock reads and whatever references are drawn: the store never holds
      more than its limit, and holds only entries exactly as they were put. */
  lemma {:induction false} StoreStaysBounded<P>(ttl: int, max: nat, ops: seq<Op<P>>)
    requires max >= 1
    ensures |Run(ttl, max, ops)| <= max
    ensures forall e <- Run(ttl, max, ops) :: e in Puts(ops)
  {
    hide Live, WithoutSession, Assigned, Evicted;
    if ops != [] {
      var init, op := ops[..|ops| - 1], ops[|ops| - 1];
      StoreStaysBounded(ttl, max, init);
      assert forall e <- Puts(init) :: e in Puts(ops);
      assert Run(ttl, max, ops) == After(Run(ttl, max, init), ttl, max, op);
      match op
      case Put(now, e) =>
        assert Puts(ops)[|Puts(init)|] == e;
        LiveIsPart(Run(ttl, max, init), now, ttl);
        PutIsPart(Live(Run(ttl, max, init), now, ttl), e, max);
      case Get(now, _, _, _) => LiveIsPart(Run(ttl, max, init), now, ttl);
      case Clear(session) =>
        WithoutSessionIsPart(Run(ttl, max, init), session);
        assert forall e <- Run(ttl, max, ops) :: e in Run(ttl, max, init);
    }
  }

  /** In every run a retrieval that succeeds returns an unexpired entry put by that session for that
      target under that reference, with the payload that was put. */
  lemma RetrievalIsScoped<P>(ttl: int, max: nat, ops: seq<Op<P>>, op: Op<P>)
    requires max >= 1 && op.Get? && Answer(Run(ttl, max, ops), ttl, op).Some?
    ensures var e := Answer(Run(ttl, max, ops), ttl, op).value;
      e in Puts(ops) && e.ref == op.ref && e.session == op.session && e.target == op.target && op.now - e.t <= ttl
  {
    hide Live, Run, Puts, Find;
    StoreStaysBounded(ttl, max, ops);
    LiveIsPart(Run(ttl, max, ops), op.now, ttl);
    var items := Live(Run(ttl, max, ops), op.now, ttl);
    var e := items[Find(items, op.ref)];
    assert e in items;
    assert e in Run(ttl, max, ops) && !Expired(e, op.now, ttl);
  }

  // ---- runs with a steady clock and fresh references ----

  /** The last clock reading of a run that began when the clock read `start`. */
  function Clock<P>(start: int, ops: seq<Op<P>>): int {
    if ops == [] then start
    else
      match ops[|ops| - 1]
      case Put(_, e) => e.t
      case Get(now, _, _, _) => now
      case Clear(_) => Clock(start, ops[..|ops| - 1])
  }

  /** The clock never goes back, and no session is cleared. */
  ghost predicate Steady<P>(start: int, ops: seq<Op<P>>) {
    ops == [] ||
    var init := ops[..|ops| - 1];
    && Steady(start, init)
    && match ops[|ops| - 1]
       case Put(now, e) => Clock(start, init) <= now <= e.t && e.digest == Digest(e.payload)
       case Get(now, _, _, _) => Clock(start, init) <= now
       case Clear(_) => false
  }

  predicate Fresh<P>(puts: seq<Item<P>>) {
    forall i, j :: 0 <= i < j < |puts| ==> puts[i].ref != puts[j].ref
  }

  predicate Ordered<P>(puts: seq<Item<P>>) {
    forall i, j :: 0 <= i < j < |puts| ==> puts[i].t <= puts[j].t
  }

  /** When the store last dropped what had expired. */
  function LastPurge<P>(start: int, ops: seq<Op<P>>): int {
    if ops == [] then start
    else
      match ops[|ops| - 1]
      case Put(now, _) => now
      case Get(now, _, _, _) => now
      case Clear(_) => LastPurge(start, ops[..|ops| - 1])
  }

  function Newest<P>(items: seq<Item<P>>, max: nat): seq<Item<P>> {
    if |items| <= max then items else items[|items| - max..]
  }

  /** How many of the entries have expired; in order of time they are the first ones. */
  function ExpiredCount<P>(items: seq<Item<P>>, now: int, ttl: int): (k: nat)
    ensures k <= |items|
    ensures forall i :: 0 <= i < k ==> Expired(items[i], now, ttl)
    ensures k < |items| ==> !Expired(items[k], now, ttl)
  {
    if items == [] || !Expired(items[0], now, ttl) then 0 else 1 + ExpiredCount(items[1..], now, ttl)
  }

  lemma {:induction false} LiveIsSuffix<P>(items: seq<Item<P>>, now: int, ttl: int)
    requires Ordered(items)
    ensures Live(items, now, ttl) == items[ExpiredCount(items, now, ttl)..]
  {
    if items != [] {
      LiveIsSuffix(items[1..], now, ttl);
      if !Expired(items[0], now, ttl) && |items| > 1 {
        assert items[1] == items[1..][0];
      }
    }
  }

  lemma ExpiredCountAt<P>(items: seq<Item<P>>, now: int, ttl: int, k: nat)
    requires k <= |items| && Ordered(items)
    requires k > 0 ==> Expired(items[k - 1], now, ttl)
    requires k < |items| ==> !Expired(items[k], now, ttl)
    ensures ExpiredCount(items, now, ttl) == k
  {
    hide ExpiredCount;
  }

  /** Where the entries that are within the limit and not among the first `k` begin. */
  function Cut(n: nat, k: nat, max: nat): (c: nat)
    requires k <= n
    ensures c <= n
  {
    if n - k <= max then k else n - max
  }

  lemma NewestOfSuffix<P>(puts: seq<Item<P>>, k: nat, max: nat)
    requires k <= |puts|
    ensures Newest(puts[k..], max) == puts[Cut(|puts|, k, max)..]
  {
  }

  lemma LiveOfSuffix<P>(puts: seq<Item<P>>, m: nat, now: int, ttl: int)
    requires Ordered(puts) && m <= |puts|
    ensures var b := ExpiredCount(puts, now, ttl);
      Live(puts[m..], now, ttl) == puts[if b <= m then m else b..]
  {
    hide Live, ExpiredCount;
    var b := ExpiredCount(puts, now, ttl);
    assert forall i :: 0 <= i < |puts| - m ==> puts[m..][i] == puts[m + i];
    assert b < m < |puts| ==> puts[b].t <= puts[m].t;
    LiveIsSuffix(puts[m..], now, ttl);
    ExpiredCountAt(puts[m..], now, ttl, if b <= m then 0 else b - m);
  }

  /** Expiring more of the newest leaves the newest of what has not expired. */
  lemma LiveOfNewest<P>(puts: seq<Item<P>>, before: int, now: int, ttl: int, max: nat)
    requires Ordered(puts) && before <= now
    ensures Live(Newest(Live(puts, before, ttl), max), now, ttl) == Newest(Live(puts, now, ttl), max)
  {
    hide Live, ExpiredCount, Newest, Ordered;
    var a, b := ExpiredCount(puts, before, ttl), ExpiredCount(puts, now, ttl);
    assert b < a ==> Expired(puts[b], before, ttl);
    LiveIsSuffix(puts, before, ttl);
    LiveIsSuffix(puts, now, ttl);
    NewestOfSuffix(puts, a, max);
    NewestOfSuffix(puts, b, max);
    LiveOfSuffix(puts, Cut(|puts|, a, max), now, ttl);
  }

  lemma {:induction false} PutsInOrder<P>(start: int, ops: seq<Op<P>>)
    requires Steady(start, ops)
    ensures Ordered(Puts(ops)) && (forall e <- Puts(ops) :: e.t <= Clock(start, ops) && e.digest == Digest(e.payload))
    ensures LastPurge(start, ops) <= Clock(start, ops)
  {
    if ops != [] {
      PutsInOrder(start, ops[..|ops| - 1]);
    }
  }

  lemma AppendLive<P>(items: seq<Item<P>>, e: Item<P>, now: int, ttl: int)
    requires Ordered(items + [e]) && !Expired(e, now, ttl)
    ensures Live(items + [e], now, ttl) == Live(items, now, ttl) + [e]
  {
    hide Live, ExpiredCount;
    assert forall i, j :: 0 <= i < j < |items| ==> (items + [e])[i] == items[i] && (items + [e])[j] == items[j];
    LiveIsSuffix(items, now, ttl);
    LiveIsSuffix(items + [e], now, ttl);
    ExpiredCountAt(items + [e], now, ttl, ExpiredCount(items, now, ttl));
  }

  lemma EvictFirst<P>(items: seq<Item<P>>, max: nat)
    requires 1 <= max && |items| <= max && Ordered(items)
    ensures Evicted(items, max) == if |items| == max then items[1..] else items
  {
    if |items| == max {
      assert Oldest(items) == 0;
    }
  }

  lemma AssignFresh<P>(items: seq<Item<P>>, e: Item<P>)
    requires forall i :: 0 <= i < |items| ==> items[i].ref != e.ref
    ensures Assigned(items, e) == items + [e]
  {
  }

  lemma NotYetUsed<P>(live: seq<Item<P>>, e: Item<P>)
    requires Fresh(live + [e])
    ensures forall i :: 0 <= i < |live| ==> live[i].ref != e.ref
  {
    assert (live + [e])[|live|] == e;
    assert forall i :: 0 <= i < |live| ==> live[i] == (live + [e])[i];
  }

  lemma PutKeepsNewest<P>(live: seq<Item<P>>, e: Item<P>, max: nat)
    requires max >= 1 && Ordered(live) && Fresh(live + [e])
    ensures Assigned(Evicted(Newest(live, max), max), e) == Newest(live + [e], max)
  {
    hide Assigned, Evicted, Fresh, Oldest;
    var items := Newest(live, max);
    var k := |live| - |items|;
    assert items == live[k..];
    NotYetUsed(live, e);
    EvictFirst(items, max);
    AssignFresh(if |items| == max then items[1..] else items, e);
  }

  /** With a clock that never goes back and fresh references, a store that clears no session holds exactly
      the newest of the entries put that had not expired when it last looked, up to its limit. */
  lemma {:induction false} StoreIsNewestLive<P>(ttl: int, max: nat, start: int, ops: seq<Op<P>>)
    requires max >= 1 && ttl >= 0 && Steady(start, ops) && Fresh(Puts(ops))
    ensures Run(ttl, max, ops) == Newest(Live(Puts(ops), LastPurge(start, ops), ttl), max)
  {
    hide Live, Fresh, Ordered, Newest, Assigned, Evicted, Expired;
    if ops == [] {
      EmptyStore<P>(ttl, max, start);
    } else {
      var init, op := ops[..|ops| - 1], ops[|ops| - 1];
      var puts := Puts(init);
      PutsInOrder(start, init);
      PutsInOrder(start, ops);
      FreshPrefix(Puts(ops), |puts|);
      StoreIsNewestLive(ttl, max, start, init);
      LiveOfNewest(puts, LastPurge(start, init), op.now, ttl, max);
      if op.Put? {
        PutStep(puts, op.item, op.now, ttl, max);
      } else {
        assert Puts(ops) == puts;
      }
    }
  }

  lemma EmptyStore<P>(ttl: int, max: nat, start: int)
    ensures Newest(Live<P>([], start, ttl), max) == []
  {
  }

  lemma FreshPrefix<P>(puts: seq<Item<P>>, k: nat)
    requires k <= |puts| && Fresh(puts)
    ensures Fresh(puts[..k])
  {
  }

  lemma PutStep<P>(puts: seq<Item<P>>, e: Item<P>, now: int, ttl: int, max: nat)
    requires max >= 1 && ttl >= 0 && Ordered(puts + [e]) && Ordered(puts) && Fresh(puts + [e]) && now <= e.t
    ensures Assigned(Evicted(Newest(Live(puts, now, ttl), max), max), e) == Newest(Live(puts + [e], now, ttl), max)
  {
    hide Live, ExpiredCount, Assigned, Evicted, Newest;
    AppendLive(puts, e, now, ttl);
    LiveIsSuffix(puts, now, ttl);
    var live, c := Live(puts, now, ttl), ExpiredCount(puts, now, ttl);
    assert forall i :: 0 <= i < |live + [e]| ==> (live + [e])[i] == (puts + [e])[c + i];
    PutKeepsNewest(live, e, max);
  }

  lemma FindAt<P>(items: seq<Item<P>>, k: nat)
    requires k < |items| && Fresh(items)
    ensures Find(items, items[k].ref) == k
  {
    hide Find;
  }

  /** Exactly when evidence can be fetched again: the i-th entry put is returned to its own session and
      target until its time to live has passed or `max` further entries have been put. */
  lemma EvidenceIsAvailable<P>(ttl: int, max: nat, start: int, ops: seq<Op<P>>, i: nat, now: int, session: string, target: string)
    requires max >= 1 && ttl >= 0 && Steady(start, ops) && Fresh(Puts(ops)) && Clock(start, ops) <= now && i < |Puts(ops)|
    ensures var e := Puts(ops)[i];
      Answer(Run(ttl, max, ops), ttl, Get(now, e.ref, session, target)) ==
        if now - e.t <= ttl && |Puts(ops)| - i <= max && session == e.session && target == e.target then Some(e) else None
  {
    hide Live, Run, Puts, Find, Newest, ExpiredCount;
    var puts := Puts(ops);
    var e := puts[i];
    PutsInOrder(start, ops);
    StoreIsNewestLive(ttl, max, start, ops);
    LiveOfNewest(puts, LastPurge(start, ops), now, ttl, max);
    NewestLiveIsSuffix(puts, now, ttl, max);
    var items := Newest(Live(puts, now, ttl), max);
    var m := |puts| - |items|;
    assert e.digest == Digest(e.payload);
    if i >= m {
      assert items[i - m] == e;
      FindAt(items, i - m);
    } else {
      assert forall j :: 0 <= j < |items| ==> items[j].ref == puts[m + j].ref != e.ref;
      assert Find(items, e.ref) == |items|;
    }
  }

  lemma NewestLiveIsSuffix<P>(puts: seq<Item<P>>, now: int, ttl: int, max: nat)
    requires Ordered(puts)
    ensures var items := Newest(Live(puts, now, ttl), max);
      && |items| <= |puts| && items == puts[|puts| - |items|..]
      && forall i :: 0 <= i < |puts| ==> (i >= |puts| - |items| <==> now - puts[i].t <= ttl && |puts| - i <= max)
  {
    hide Live, ExpiredCount;
    LiveIsSuffix(puts, now, ttl);
    var c := ExpiredCount(puts, now, ttl);
    assert forall i :: 0 <= i < c ==> Expired(puts[i], now, ttl);
    assert forall i :: c <= i < |puts| ==> puts[c].t <= puts[i].t;
  }
}
