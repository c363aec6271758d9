/** The incident timeline: timed evidence ordered, and grouped into events. */
module Timeline {
  import opened Calendar
  import opened Options
  import opened UtcText
  import opened Sorting
  import opened TextOrder

  /** Evidence as the timeline sees it; `signature` is the canonical signature or the opaque token it is
      grouped by, `index` its place in the input. */
  datatype Item = Item(id: string, source: string, domain: string, eventType: string, signature: Option<string>,
                       at: Option<Utc>, index: nat, degraded: bool)

  /** A time that could be read is a valid instant. */
  predicate Timestamped(items: seq<Item>) {
    forall e <- items :: e.at.Some? ==> ValidUtc(e.at.value)
  }

  predicate IsTimed(e: Item) {
    e.at.Some? && ValidUtc(e.at.value)
  }

  /** The ISO text the item carries and is sorted by. */
  function Stamp(e: Item): string {
    if IsTimed(e) then IsoFormat(e.at.value) else ""
  }

  function Time(e: Item): int
    requires e.at.Some?
  {
    Micros(e.at.value)
  }

  /** The sort key: the text, then the input position. */
  predicate Earlier(a: Item, b: Item) {
    Less(Stamp(a), Stamp(b)) || (Stamp(a) == Stamp(b) && a.index < b.index)
  }

  function Timed(items: seq<Item>): seq<Item> {
    if items == [] then []
    else
      var e := items[|items| - 1];
      Timed(items[..|items| - 1]) + if e.at.Some? then [e] else []
  }

  // ---- deduplication ----

  const SECOND := 1_000_000
  const EPOCH := Micros(Utc(Date(1970, 1, 1), 0, 0, 0, 0))

  /** Seconds since the epoch: rounded down to whole windows, or cut off towards zero without a window. */
  function Bucket(time: int, window: int): int {
    var t := time - EPOCH;
    if window > 0 then t / (window * SECOND)
    else if t >= 0 then t / SECOND
    else -((-t) / SECOND)
  }

  datatype Key = Key(source: string, domain: string, eventType: string, signature: Option<string>, bucket: int)

  function KeyOf(e: Item, window: int): Key
    requires e.at.Some?
  {
    Key(e.source, e.domain, e.eventType, e.signature, Bucket(Time(e), window))
  }

  predicate AllTimed(s: seq<Item>) {
    forall i :: 0 <= i < |s| ==> s[i].at.Some? && ValidUtc(s[i].at.value)
  }

  /** The keys in the order in which they first occur. */
  function Keys(s: seq<Item>, window: int): seq<Key>
    requires AllTimed(s)
  {
    if s == [] then []
    else
      var before, k := Keys(s[..|s| - 1], window), KeyOf(s[|s| - 1], window);
      if k in before then before else before + [k]
  }

  function Members(s: seq<Item>, window: int, k: Key): seq<Item>
    requires AllTimed(s)
  {
    if s == [] then []
    else
      var e := s[|s| - 1];
      Members(s[..|s| - 1], window, k) + if KeyOf(e, window) == k then [e] else []
  }

  datatype Event = Event(key: Key, timestamp: string, count: nat, firstSeen: string, lastSeen: string,
                         evidence: set<string>, sources: set<string>, degraded: bool)

  function Least(s: seq<Item>): string
    requires s != []
  {
    if |s| == 1 then Stamp(s[0])
    else
      var m := Least(s[..|s| - 1]);
      if Less(Stamp(s[|s| - 1]), m) then Stamp(s[|s| - 1]) else m
  }

  function Greatest(s: seq<Item>): string
    requires s != []
  {
    if |s| == 1 then Stamp(s[0])
    else
      var m := Greatest(s[..|s| - 1]);
      if Less(m, Stamp(s[|s| - 1])) then Stamp(s[|s| - 1]) else m
  }

  function EventOf(k: Key, members: seq<Item>): Event
    requires members != []
  {
    Event(k, Stamp(members[0]), |members|, Least(members), Greatest(members),
          set m | m in members :: m.id, set m | m in members :: m.source, exists m :: m in members && m.degraded)
  }

  lemma {:induction false} KeysHaveMembers(s: seq<Item>, window: int)
    requires AllTimed(s)
    ensures forall k :: k in Keys(s, window) <==> Members(s, window, k) != []
    ensures forall i, j :: 0 <= i < j < |Keys(s, window)| ==> Keys(s, window)[i] != Keys(s, window)[j]
  {
    hide KeyOf;
    if s != [] {
      KeysHaveMembers(s[..|s| - 1], window);
    }
  }

  function Events(s: seq<Item>, window: int): (events: seq<Event>)
    requires AllTimed(s)
    ensures |events| == |Keys(s, window)|
  {
    KeysHaveMembers(s, window);
    seq(|Keys(s, window)|, i requires 0 <= i < |Keys(s, window)| => EventOf(Keys(s, window)[i], Members(s, window, Keys(s, window)[i])))
  }

  lemma {:induction false} TimedHolds(items: seq<Item>)
    requires Timestamped(items)
    ensures AllTimed(Timed(items)) && forall e :: e in Timed(items) <==> e in items && e.at.Some?
  {
    hide ValidUtc;
    if items != [] {
      var n := |items| - 1;
      TimedHolds(items[..n]);
      assert items == items[..n] + [items[n]];
      assert items[n] in items;
    }
  }

  lemma EarlierIsAnOrder()
    ensures IsOrder(Earlier)
  {
    hide Stamp, Less;
    forall a: Item, b: Item | Earlier(a, b)
      ensures !Earlier(b, a)
    {
      LessIrreflexive(Stamp(a));
      if Less(Stamp(a), Stamp(b)) && Less(Stamp(b), Stamp(a)) {
        LessTransitive(Stamp(a), Stamp(b), Stamp(a));
      }
    }
    forall a: Item, b: Item, c: Item | !Earlier(b, a) && !Earlier(c, b)
      ensures !Earlier(c, a)
    {
      NotEarlierTransitive(a, b, c);
    }
  }

  lemma NotEarlierTransitive(a: Item, b: Item, c: Item)
    requires !Earlier(b, a) && !Earlier(c, b)
    ensures !Earlier(c, a)
  {
    hide Stamp, Less;
    LessTotal(Stamp(a), Stamp(b));
    LessTotal(Stamp(b), Stamp(c));
    LessTotal(Stamp(a), Stamp(c));
    LessIrreflexive(Stamp(a));
    LessIrreflexive(Stamp(c));
    if Less(Stamp(c), Stamp(a)) {
      if Less(Stamp(a), Stamp(b)) {
        LessTransitive(Stamp(c), Stamp(a), Stamp(b));
        if Less(Stamp(b), Stamp(c)) {
          LessTransitive(Stamp(b), Stamp(c), Stamp(b));
          LessIrreflexive(Stamp(b));
        }
      }
    }
  }

  function Chronology(items: seq<Item>): seq<Item> {
    Sort(Earlier, Timed(items))
  }

  lemma ChronologyIsTimed(items: seq<Item>)
    requires Timestamped(items)
    ensures AllTimed(Chronology(items)) && |Chronology(items)| == |Timed(items)|
    ensures forall e :: e in Chronology(items) <==> e in items && e.at.Some?
    ensures Sorted(Earlier, Chronology(items)) && multiset(Chronology(items)) == multiset(Timed(items))
  {
    hide Timed, Sort, Earlier, ValidUtc;
    TimedHolds(items);
    EarlierIsAnOrder();
    SortKeepsElements(Earlier, Timed(items));
    SortSorts(Earlier, Timed(items));
  }

  lemma KeysStep(s: seq<Item>, window: int, i: nat)
    requires AllTimed(s) && i < |s|
    ensures var before, k := Keys(s[..i], window), KeyOf(s[i], window);
      Keys(s[..i + 1], window) == if k in before then before else before + [k]
    ensures forall k :: Members(s[..i + 1], window, k) == Members(s[..i], window, k) + (if KeyOf(s[i], window) == k then [s[i]] else [])
    ensures KeyOf(s[i], window) !in Keys(s[..i], window) ==> Members(s[..i], window, KeyOf(s[i], window)) == []
  {
    hide KeyOf;
    assert s[..i + 1][..i] == s[..i];
    KeysHaveMembers(s[..i], window);
  }

  /** The grouping loop: a map of groups, and the keys in the order they were met. */
  method Group(timed: seq<Item>, window: int) returns (groups: map<Key, seq<Item>>, order: seq<Key>)
    requires AllTimed(timed)
    ensures order == Keys(timed, window) && groups.Keys == (set k | k in order)
    ensures forall k :: k in order ==> groups[k] == Members(timed, window, k)
  {
    hide KeyOf, Keys, Members, ValidUtc;
    groups, order := map[], [];
    NoKeys(window);
    for i := 0 to |timed|
      invariant order == Keys(timed[..i], window)
      invariant forall k :: k in groups <==> k in order
      invariant forall k :: k in groups ==> groups[k] == Members(timed[..i], window, k)
    {
      var k := KeyOf(timed[i], window);
      KeysStep(timed, window, i);
      if k !in groups {
        groups, order := groups[k := []], order + [k];
      }
      groups := groups[k := groups[k] + [timed[i]]];
    }
    assert timed[..|timed|] == timed;
  }

  lemma NoKeys(window: int)
    ensures Keys([], window) == []
  {
  }

  method BuildTimeline(items: seq<Item>, window: int) returns (events: seq<Event>, degraded: bool)
    requires Timestamped(items)
    ensures AllTimed(Chronology(items)) && events == Events(Chronology(items), window)
    ensures degraded <==> exists e :: e in items && e.degraded
  {
    hide Chronology, KeyOf, EventOf, ValidUtc, Keys, Members;
    var timed := Chronology(items);
    ChronologyIsTimed(items);
    var groups, order := Group(timed, window);
    KeysHaveMembers(timed, window);
    events := [];
    for i := 0 to |order|
      invariant |events| == i && forall k :: 0 <= k < i ==> events[k] == Events(timed, window)[k]
    {
      events := events + [EventOf(order[i], groups[order[i]])];
    }
    degraded := exists e | e in items :: e.degraded;
  }

  // ---- what a timeline is ----

  /** The items of the i-th event. */
  function MembersOf(items: seq<Item>, window: int, i: nat): seq<Item>
    requires AllTimed(Chronology(items)) && i < |Keys(Chronology(items), window)|
  {
    Members(Chronology(items), window, Keys(Chronology(items), window)[i])
  }

  lemma {:induction false} MembersHold(s: seq<Item>, window: int, k: Key)
    requires AllTimed(s)
    ensures AllTimed(Members(s, window, k))
    ensures forall e :: e in Members(s, window, k) <==> e in s && e.at.Some? && KeyOf(e, window) == k
  {
    hide KeyOf, ValidUtc;
    if s != [] {
      var n := |s| - 1;
      MembersHold(s[..n], window, k);
      assert s == s[..n] + [s[n]];
      assert s[n] in s;
    }
  }

  function Counts(events: seq<Event>): nat {
    if events == [] then 0 else Counts(events[..|events| - 1]) + events[|events| - 1].count
  }

  /** Numbers of members, key by key. */
  function Sizes(s: seq<Item>, window: int, keys: seq<Key>): nat
    requires AllTimed(s)
  {
    if keys == [] then 0 else Sizes(s, window, keys[..|keys| - 1]) + |Members(s, window, keys[|keys| - 1])|
  }

  lemma {:induction false} SizesStep(s: seq<Item>, window: int, keys: seq<Key>)
    requires AllTimed(s) && s != [] && forall i, j :: 0 <= i < j < |keys| ==> keys[i] != keys[j]
    ensures var n := |s| - 1;
      Sizes(s, window, keys) == Sizes(s[..n], window, keys) + if KeyOf(s[n], window) in keys then 1 else 0
  {
    hide KeyOf;
    if keys != [] {
      var m := |keys| - 1;
      SizesStep(s, window, keys[..m]);
      assert keys == keys[..m] + [keys[m]];
    }
  }

  lemma {:induction false} SizesSum(s: seq<Item>, window: int)
    requires AllTimed(s)
    ensures Sizes(s, window, Keys(s, window)) == |s|
  {
    hide KeyOf;
    if s != [] {
      var n := |s| - 1;
      var k, keys := KeyOf(s[n], window), Keys(s[..n], window);
      SizesSum(s[..n], window);
      KeysHaveMembers(s, window);
      KeysHaveMembers(s[..n], window);
      SizesStep(s, window, Keys(s, window));
      if k !in keys {
        assert (keys + [k])[..|keys|] == keys;
      }
    }
  }

  lemma {:induction false} CountsAreSizes(s: seq<Item>, window: int, m: nat)
    requires AllTimed(s) && m <= |Keys(s, window)|
    ensures Counts(Events(s, window)[..m]) == Sizes(s, window, Keys(s, window)[..m])
  {
    hide Keys, Members;
    if m > 0 {
      CountsAreSizes(s, window, m - 1);
      KeysHaveMembers(s, window);
      assert Events(s, window)[..m][..m - 1] == Events(s, window)[..m - 1];
      assert Keys(s, window)[..m][..m - 1] == Keys(s, window)[..m - 1];
    }
  }

  /** The events partition the timed evidence: their counts add up to it, and every timed item is a member of
      exactly one event. */
  lemma EventsPartition(items: seq<Item>, window: int)
    requires Timestamped(items)
    ensures AllTimed(Chronology(items))
    ensures Counts(Events(Chronology(items), window)) == |Timed(items)|
    ensures forall e <- items :: e.at.Some? ==>
      exists i :: 0 <= i < |Keys(Chronology(items), window)| && e in MembersOf(items, window, i)
                  && forall j :: 0 <= j < |Keys(Chronology(items), window)| && e in MembersOf(items, window, j) ==> j == i
  {
    hide Chronology, Keys, Members, KeyOf, Events, ValidUtc;
    ChronologyIsTimed(items);
    var s := Chronology(items);
    var keys := Keys(s, window);
    SizesSum(s, window);
    CountsAreSizes(s, window, |keys|);
    assert Events(s, window)[..|keys|] == Events(s, window) && keys[..|keys|] == keys;
    KeysHaveMembers(s, window);
    forall e | e in items && e.at.Some?
      ensures exists i :: 0 <= i < |keys| && e in MembersOf(items, window, i)
                          && forall j :: 0 <= j < |keys| && e in MembersOf(items, window, j) ==> j == i
    {
      var k := KeyOf(e, window);
      MembersHold(s, window, k);
      assert e in Members(s, window, k);
      var i :| 0 <= i < |keys| && keys[i] == k;
      forall j | 0 <= j < |keys| && e in MembersOf(items, window, j)
        ensures j == i
      {
        MembersHold(s, window, keys[j]);
      }
      assert e in MembersOf(items, window, i);
    }
  }

  lemma SameBucket(t: int, u: int, window: int)
    requires window > 0 && Bucket(t, window) == Bucket(u, window)
    ensures -(window * SECOND) < t - u < window * SECOND
  {
    var w, a, b := window * SECOND, t - EPOCH, u - EPOCH;
    assert a == (a / w) * w + a % w && b == (b / w) * w + b % w;
  }

  /** Within an event all share source, domain, type and signature, and lie strictly within one window. */
  lemma MembersBelongTogether(items: seq<Item>, window: int, i: nat, a: Item, b: Item)
    requires Timestamped(items) && AllTimed(Chronology(items)) && i < |Keys(Chronology(items), window)|
    requires a in MembersOf(items, window, i) && b in MembersOf(items, window, i)
    ensures a.at.Some? && b.at.Some?
    ensures a.source == b.source && a.domain == b.domain && a.eventType == b.eventType && a.signature == b.signature
    ensures window > 0 ==> -(window * SECOND) < Time(a) - Time(b) < window * SECOND
  {
    hide Chronology, Keys, Members, Bucket, Micros;
    MembersHold(Chronology(items), window, Keys(Chronology(items), window)[i]);
    if window > 0 {
      SameBucket(Time(a), Time(b), window);
    }
  }

  // ---- order ----

  /** In order of time, told by the instants themselves. */
  predicate InTimeOrder(s: seq<Item>)
    requires AllTimed(s)
  {
    forall i, j :: 0 <= i < j < |s| ==> Time(s[i]) <= Time(s[j])
  }

  /** The text sort is a sort by time, ties in input order. */
  lemma ChronologyIsInTimeOrder(items: seq<Item>)
    requires Timestamped(items)
    ensures AllTimed(Chronology(items)) && InTimeOrder(Chronology(items))
    ensures forall i, j :: 0 <= i < j < |Chronology(items)| && Time(Chronology(items)[i]) == Time(Chronology(items)[j]) ==>
      Chronology(items)[i].index <= Chronology(items)[j].index
  {
    hide Chronology, ValidUtc, Micros, IsoFormat, Less;
    ChronologyIsTimed(items);
    var s := Chronology(items);
    forall i, j | 0 <= i < j < |s|
      ensures Time(s[i]) <= Time(s[j]) && (Time(s[i]) == Time(s[j]) ==> s[i].index <= s[j].index)
    {
      assert !Earlier(s[j], s[i]);
      IsoOrderIsTimeOrder(s[j].at.value, s[i].at.value);
    }
  }

  lemma NothingInOrder()
    ensures InTimeOrder([])
  {
  }

  lemma FrontInOrder(s: seq<Item>)
    requires s != [] && AllTimed(s) && InTimeOrder(s)
    ensures s[|s| - 1].at.Some? && InTimeOrder(s[..|s| - 1])
    ensures forall e <- s[..|s| - 1] :: e.at.Some? && Time(e) <= Time(s[|s| - 1])
  {
    hide ValidUtc, Micros;
  }

  lemma AppendInOrder(s: seq<Item>, e: Item)
    requires AllTimed(s) && InTimeOrder(s) && AllTimed(s + [e]) && e.at.Some?
    requires forall m <- s :: m.at.Some? && Time(m) <= Time(e)
    ensures InTimeOrder(s + [e]) && InTimeOrder(s + [])
  {
    hide ValidUtc, Micros;
    assert s + [] == s;
  }

  lemma {:induction false} MembersInOrder(s: seq<Item>, window: int, k: Key)
    requires AllTimed(s) && InTimeOrder(s)
    ensures AllTimed(Members(s, window, k)) && InTimeOrder(Members(s, window, k))
  {
    hide KeyOf, ValidUtc, Micros, InTimeOrder;
    if s == [] {
      NothingInOrder();
    } else {
      var n := |s| - 1;
      FrontInOrder(s);
      MembersInOrder(s[..n], window, k);
      MembersHold(s[..n], window, k);
      AppendInOrder(Members(s[..n], window, k), s[n]);
    }
  }

  /** When the first member with a key was seen. */
  function FirstTime(s: seq<Item>, window: int, k: Key): int
    requires AllTimed(s)
  {
    MembersHold(s, window, k);
    var m := Members(s, window, k);
    if m == [] then 0 else Time(m[0])
  }

  lemma FirstStays(s: seq<Item>, window: int, k: Key)
    requires s != [] && AllTimed(s) && InTimeOrder(s) && Members(s[..|s| - 1], window, k) != []
    ensures FirstTime(s, window, k) == FirstTime(s[..|s| - 1], window, k) <= Time(s[|s| - 1])
  {
    hide KeyOf, ValidUtc, Micros;
    var n := |s| - 1;
    MembersHold(s[..n], window, k);
    var first := Members(s[..n], window, k)[0];
    assert first in Members(s[..n], window, k);
    var j :| 0 <= j < n && s[..n][j] == first;
    assert s[j] == first;
  }

  lemma {:induction false} FirstsInOrder(s: seq<Item>, window: int)
    requires AllTimed(s) && InTimeOrder(s)
    ensures forall i, j :: 0 <= i < j < |Keys(s, window)| ==>
      FirstTime(s, window, Keys(s, window)[i]) <= FirstTime(s, window, Keys(s, window)[j])
  {
    hide KeyOf, ValidUtc, Micros, Members, FirstTime;
    if s != [] {
      var n := |s| - 1;
      var init, k := s[..n], KeyOf(s[n], window);
      assert forall i :: 0 <= i < n ==> init[i] == s[i];
      FirstsInOrder(init, window);
      KeysHaveMembers(init, window);
      var before := Keys(init, window);
      forall i | 0 <= i < |before|
        ensures FirstTime(s, window, before[i]) == FirstTime(init, window, before[i]) <= Time(s[n])
      {
        assert before[i] in before;
        FirstStays(s, window, before[i]);
      }
      if k !in before {
        FirstOfNew(s, window);
      }
    }
  }

  lemma FirstOfNew(s: seq<Item>, window: int)
    requires s != [] && AllTimed(s) && Members(s[..|s| - 1], window, KeyOf(s[|s| - 1], window)) == []
    ensures FirstTime(s, window, KeyOf(s[|s| - 1], window)) == Time(s[|s| - 1])
  {
    hide KeyOf, Micros;
  }

  lemma {:induction false} ExtremesOfOrdered(s: seq<Item>)
    requires s != [] && AllTimed(s) && InTimeOrder(s)
    ensures Least(s) == Stamp(s[0]) && Greatest(s) == Stamp(s[|s| - 1])
  {
    hide Less, IsoFormat, Micros;
    if |s| > 1 {
      var n := |s| - 1;
      assert forall i :: 0 <= i < n ==> s[..n][i] == s[i];
      ExtremesOfOrdered(s[..n]);
      IsoOrderIsTimeOrder(s[n].at.value, s[0].at.value);
      IsoOrderIsTimeOrder(s[n - 1].at.value, s[n].at.value);
    }
  }

  /** An event is stamped with its earliest member's time, which is also when it was first seen, and was last
      seen at its latest member's; and the events come out in order of time. */
  lemma EventsInTimeOrder(items: seq<Item>, window: int, i: nat, j: nat)
    requires Timestamped(items) && AllTimed(Chronology(items)) && i <= j < |Keys(Chronology(items), window)|
    ensures var a, b := MembersOf(items, window, i), MembersOf(items, window, j);
      && a != [] && b != [] && AllTimed(a) && AllTimed(b)
      && Time(a[0]) <= Time(b[0])
      && (forall m <- a :: Time(a[0]) <= Time(m) <= Time(a[|a| - 1]))
      && Events(Chronology(items), window)[i].timestamp == Stamp(a[0])
      && Events(Chronology(items), window)[i].firstSeen == Stamp(a[0])
      && Events(Chronology(items), window)[i].lastSeen == Stamp(a[|a| - 1])
  {
    hide Chronology, Keys, Members, KeyOf, ValidUtc, Micros, Stamp, Least, Greatest;
    var s := Chronology(items);
    var keys := Keys(s, window);
    ChronologyIsInTimeOrder(items);
    FirstsInOrder(s, window);
    assert keys[i] in keys && keys[j] in keys;
    KeysHaveMembers(s, window);
    MembersInOrder(s, window, keys[i]);
    MembersInOrder(s, window, keys[j]);
    ExtremesOfOrdered(MembersOf(items, window, i));
  }
}
