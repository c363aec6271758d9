/** What each event of a timeline says about the evidence in it. */
module TimelineEvents {
  import opened Options
  import opened Sorting
  import opened Timeline
  import opened UtcText

  const MICROS := 1_000_000

  /** Microseconds since the first of January 1970. */
  function SinceEpoch(e: Item): int
    requires e.at.Some?
  {
    Time(e) - 62_135_683_200_000_000
  }

  /** Between `k` and `k + 1` windows after the epoch. */
  predicate InWindow(t: int, window: int, k: int) {
    k * (window * MICROS) <= t < (k + 1) * (window * MICROS)
  }

  /** `k` whole seconds away from the epoch, cut off towards it. */
  predicate InSecond(t: int, k: int) {
    if k > 0 then k * MICROS <= t < (k + 1) * MICROS
    else if k == 0 then -MICROS < t < MICROS
    else (k - 1) * MICROS < t <= k * MICROS
  }

  ghost predicate SameTime(t: int, u: int, window: int) {
    if window > 0 then exists k :: InWindow(t, window, k) && InWindow(u, window, k)
    else exists k :: InSecond(t, k) && InSecond(u, k)
  }

  /** Two timed items that belong into one event. */
  ghost predicate Together(a: Item, b: Item, window: int) {
    && a.at.Some? && b.at.Some?
    && a.source == b.source && a.domain == b.domain && a.eventType == b.eventType && a.signature == b.signature
    && SameTime(SinceEpoch(a), SinceEpoch(b), window)
  }

  lemma EpochIs()
    ensures EPOCH == 62_135_683_200_000_000
  {
  }

  lemma WindowOf(t: int, w: int, k: int)
    requires w > 0
    ensures k * w <= t < (k + 1) * w <==> t / w == k
  {
    var q := t / w;
    assert t == q * w + t % w;
    if k * w <= t < (k + 1) * w {
      Between(q, k, w, t);
    }
  }

  lemma Between(q: int, k: int, w: int, t: int)
    requires w > 0 && q * w <= t < (q + 1) * w && k * w <= t < (k + 1) * w
    ensures q == k
  {
    if q < k {
      Scaled(q + 1, k, w);
    } else if q > k {
      Scaled(k + 1, q, w);
    }
  }

  lemma Scaled(a: int, b: int, w: int)
    requires a <= b && w > 0
    ensures a * w <= b * w
  {
  }

  lemma SecondOf(t: int, k: int)
    ensures InSecond(t, k) <==> k == if t >= 0 then t / MICROS else -((-t) / MICROS)
  {
  }

  /** One bucket is one window. */
  lemma BucketsAreWindows(t: int, u: int, window: int)
    ensures Bucket(t, window) == Bucket(u, window) <==>
      SameTime(t - 62_135_683_200_000_000, u - 62_135_683_200_000_000, window)
  {
    hide InSecond;
    EpochIs();
    var a, b := t - EPOCH, u - EPOCH;
    if window > 0 {
      forall k: int
        ensures InWindow(a, window, k) <==> a / (window * MICROS) == k
        ensures InWindow(b, window, k) <==> b / (window * MICROS) == k
      {
        WindowOf(a, window * MICROS, k);
        WindowOf(b, window * MICROS, k);
      }
      assert InWindow(a, window, Bucket(t, window));
    } else {
      forall k: int
        ensures InSecond(a, k) <==> Bucket(t, window) == k
        ensures InSecond(b, k) <==> Bucket(u, window) == k
      {
        SecondOf(a, k);
        SecondOf(b, k);
      }
      assert InSecond(a, Bucket(t, window));
    }
  }

  lemma KeysAreTogether(a: Item, b: Item, window: int)
    requires a.at.Some? && b.at.Some?
    ensures KeyOf(a, window) == KeyOf(b, window) <==> Together(a, b, window)
  {
    hide SameTime, Bucket, Micros;
    BucketsAreWindows(Time(a), Time(b), window);
  }

  /** The event an item belongs to: its place in the timeline. */
  ghost predicate PlaceOf(items: seq<Item>, window: int, a: Item, i: nat)
    requires AllTimed(Chronology(items))
  {
    i < |Keys(Chronology(items), window)| && a.at.Some? && Keys(Chronology(items), window)[i] == KeyOf(a, window)
  }

  lemma EveryItemHasAPlace(items: seq<Item>, window: int, a: Item) returns (i: nat)
    requires Timestamped(items) && a in items && a.at.Some?
    ensures AllTimed(Chronology(items)) && PlaceOf(items, window, a, i)
    ensures i < |Events(Chronology(items), window)|
  {
    hide Chronology, Keys, KeyOf, Members, ValidUtc;
    ChronologyIsTimed(items);
    KeysHaveMembers(Chronology(items), window);
    MembersHold(Chronology(items), window, KeyOf(a, window));
    assert a in Members(Chronology(items), window, KeyOf(a, window));
    i :| 0 <= i < |Keys(Chronology(items), window)| && Keys(Chronology(items), window)[i] == KeyOf(a, window);
  }

  /** Two items share an event exactly when they agree in source, domain, type and signature and fall into one window. */
  lemma OneEventExactly(items: seq<Item>, window: int, a: Item, i: nat, b: Item, j: nat)
    requires Timestamped(items) && AllTimed(Chronology(items))
    requires PlaceOf(items, window, a, i) && PlaceOf(items, window, b, j)
    ensures i == j <==> Together(a, b, window)
  {
    hide Chronology, Keys, KeyOf, Members, ValidUtc, Together;
    KeysHaveMembers(Chronology(items), window);
    KeysAreTogether(a, b, window);
  }

  // ---- counts ----

  lemma {:induction false} MembersCounted(s: seq<Item>, window: int, k: Key)
    requires AllTimed(s)
    ensures |Members(s, window, k)| == CountIf((e: Item) => e.at.Some? && KeyOf(e, window) == k, s)
  {
    hide KeyOf, ValidUtc;
    if s != [] {
      var n := |s| - 1;
      MembersCounted(s[..n], window, k);
      CountSnoc((e: Item) => e.at.Some? && KeyOf(e, window) == k, s[..n], s[n]);
      assert s == s[..n] + [s[n]];
    }
  }

  lemma {:induction false} TimedCounted(p: Item -> bool, items: seq<Item>)
    requires forall e :: p(e) ==> e.at.Some?
    ensures CountIf(p, Timed(items)) == CountIf(p, items)
  {
    if items != [] {
      var n := |items| - 1;
      TimedCounted(p, items[..n]);
      CountSnoc(p, items[..n], items[n]);
      CountSnoc(p, Timed(items[..n]), items[n]);
      assert items == items[..n] + [items[n]];
      assert Timed(items[..n]) + [] == Timed(items[..n]);
    }
  }

  /** What the event of an item says: its source, domain, type and signature; how many timed items belong into the event,
      which they are, where they come from; and that it is degraded exactly when one of them is. */
  lemma EventSays(items: seq<Item>, window: int, a: Item, i: nat)
    requires Timestamped(items) && AllTimed(Chronology(items)) && a in items && PlaceOf(items, window, a, i)
    requires i < |Events(Chronology(items), window)|
    ensures var e := Events(Chronology(items), window)[i];
      && e.key.source == a.source && e.key.domain == a.domain && e.key.eventType == a.eventType && e.key.signature == a.signature
      && e.evidence == (set b | b in items && Together(a, b, window) :: b.id)
      && e.sources == {a.source}
      && (e.degraded <==> exists b :: b in items && Together(a, b, window) && b.degraded)
  {
    hide Chronology, Keys, Members, ValidUtc, Together, Bucket, Stamp, Least, Greatest;
    var s, k := Chronology(items), KeyOf(a, window);
    ChronologyIsTimed(items);
    KeysHaveMembers(s, window);
    MembersHold(s, window, k);
    var members := Members(s, window, k);
    forall b: Item
      ensures b in members <==> b in items && Together(a, b, window)
    {
      if b.at.Some? {
        KeysAreTogether(a, b, window);
      } else {
        NotTogether(a, b, window);
      }
    }
    assert a in members;
    SaysOfMembers(k, members);
    SharedSource(a, members, window);
  }

  lemma NotTogether(a: Item, b: Item, window: int)
    requires b.at.None?
    ensures !Together(a, b, window)
  {
  }

  lemma SaysOfMembers(k: Key, members: seq<Item>)
    requires members != []
    ensures var e := EventOf(k, members);
      && e.key == k && e.evidence == (set m | m in members :: m.id) && e.sources == (set m | m in members :: m.source)
      && (e.degraded <==> exists m :: m in members && m.degraded)
  {
    hide Stamp, Least, Greatest;
  }

  lemma SharedSource(a: Item, members: seq<Item>, window: int)
    requires a in members && forall b <- members :: Together(a, b, window)
    ensures (set m | m in members :: m.source) == {a.source}
  {
    hide SameTime;
  }

  /** How many belong into it. */
  lemma EventCounts(items: seq<Item>, window: int, a: Item, i: nat)
    requires Timestamped(items) && AllTimed(Chronology(items)) && a in items && PlaceOf(items, window, a, i)
    requires i < |Events(Chronology(items), window)|
    ensures Events(Chronology(items), window)[i].count == CountIf((b: Item) => Together(a, b, window), items)
  {
    hide Timed, Keys, Members, ValidUtc, KeyOf, Stamp, Least, Greatest, Sort, CountIf, Earlier, Together;
    var p := (b: Item) => b.at.Some? && KeyOf(b, window) == KeyOf(a, window);
    KeysHaveMembers(Chronology(items), window);
    MembersCounted(Chronology(items), window, KeyOf(a, window));
    CountSorted(p, Earlier, Timed(items));
    TimedCounted(p, items);
    var q := (b: Item) => Together(a, b, window);
    forall b: Item
      ensures p(b) <==> q(b)
    {
      if b.at.Some? {
        KeysAreTogether(b, a, window);
        Symmetric(a, b, window);
      } else {
        NotTogether(a, b, window);
      }
    }
    CountImplied(p, q, items);
    CountImplied(q, p, items);
  }

  lemma Symmetric(a: Item, b: Item, window: int)
    ensures Together(a, b, window) <==> Together(b, a, window)
  {
  }
}
