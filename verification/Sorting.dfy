/** The stable sort, for any order. */
module Sorting {

  type Order<!T> = (T, T) -> bool

  function Insert<T>(before: Order<T>, x: T, s: seq<T>): seq<T> {
    if s == [] || before(x, s[0]) then [x] + s else [s[0]] + Insert(before, x, s[1..])
  }

  function Sort<T>(before: Order<T>, s: seq<T>): seq<T> {
    if s == [] then [] else Insert(before, s[|s| - 1], Sort(before, s[..|s| - 1]))
  }

  /** Nothing stands behind what it should come before. */
  predicate Sorted<T>(before: Order<T>, s: seq<T>) {
    forall i, j :: 0 <= i < j < |s| ==> !before(s[j], s[i])
  }

  /** A strict order in which elements may tie: asymmetric, and not coming before is transitive. */
  ghost predicate IsOrder<T(!new)>(before: Order<T>) {
    && (forall a, b :: before(a, b) ==> !before(b, a))
    && (forall a, b, c :: !before(b, a) && !before(c, b) ==> !before(c, a))
  }

  lemma {:induction false} FromInsert<T(!new)>(before: Order<T>, x: T, s: seq<T>, j: nat)
    requires j < |Insert(before, x, s)|
    ensures Insert(before, x, s)[j] == x || Insert(before, x, s)[j] in s
  {
    if s != [] && !before(x, s[0]) && j > 0 {
      FromInsert(before, x, s[1..], j - 1);
    }
  }

  lemma {:induction false} InsertPermutes<T(!new)>(before: Order<T>, x: T, s: seq<T>)
    ensures multiset(Insert(before, x, s)) == multiset(s) + multiset{x}
  {
    if s != [] && !before(x, s[0]) {
      InsertPermutes(before, x, s[1..]);
      assert s == [s[0]] + s[1..];
    }
  }

  lemma SortedCons<T(!new)>(before: Order<T>, x: T, s: seq<T>)
    requires Sorted(before, s) && forall j :: 0 <= j < |s| ==> !before(s[j], x)
    ensures Sorted(before, [x] + s)
  {
  }

  lemma SortedParts<T(!new)>(before: Order<T>, s: seq<T>)
    requires Sorted(before, s) && s != []
    ensures Sorted(before, s[1..]) && forall y <- s[1..] :: !before(y, s[0])
  {
  }

  /** What comes before the first of a sorted sequence comes behind none of it. */
  lemma BeforeFirst<T(!new)>(before: Order<T>, x: T, s: seq<T>, j: nat)
    requires IsOrder(before) && Sorted(before, s) && j < |s| && before(x, s[0])
    ensures !before(s[j], x)
  {
    assert !before(s[0], x);
    assert j > 0 ==> !before(s[j], s[0]);
  }

  lemma {:induction false} InsertSorts<T(!new)>(before: Order<T>, x: T, s: seq<T>)
    requires IsOrder(before) && Sorted(before, s)
    ensures Sorted(before, Insert(before, x, s))
  {
    hide IsOrder, Sorted;
    if s == [] {
      EmptySorted(before);
      SortedCons(before, x, s);
    } else if before(x, s[0]) {
      forall j | 0 <= j < |s|
        ensures !before(s[j], x)
      {
        BeforeFirst(before, x, s, j);
      }
      SortedCons(before, x, s);
    } else {
      var rest := Insert(before, x, s[1..]);
      SortedParts(before, s);
      InsertSorts(before, x, s[1..]);
      forall j | 0 <= j < |rest|
        ensures !before(rest[j], s[0])
      {
        FromInsert(before, x, s[1..], j);
      }
      SortedCons(before, s[0], rest);
    }
  }

  /** Sorting permutes, and what comes out is sorted. */
  lemma {:induction false} SortSorts<T(!new)>(before: Order<T>, s: seq<T>)
    requires IsOrder(before)
    ensures Sorted(before, Sort(before, s)) && multiset(Sort(before, s)) == multiset(s)
  {
    hide IsOrder, Sorted, Insert;
    if s == [] {
      EmptySorted(before);
    } else {
      var n := |s| - 1;
      SortSorts(before, s[..n]);
      InsertSorts(before, s[n], Sort(before, s[..n]));
      InsertPermutes(before, s[n], Sort(before, s[..n]));
      assert s == s[..n] + [s[n]];
    }
  }

  lemma EmptySorted<T>(before: Order<T>)
    ensures Sorted(before, [])
  {
  }

  lemma SortKeepsElements<T(!new)>(before: Order<T>, s: seq<T>)
    requires IsOrder(before)
    ensures |Sort(before, s)| == |s| && forall x :: x in Sort(before, s) <==> x in s
  {
    hide IsOrder, Sorted, Sort;
    SortSorts(before, s);
    var r := Sort(before, s);
    assert |multiset(r)| == |multiset(s)|;
    forall x
      ensures x in r <==> x in s
    {
      assert x in multiset(r) <==> x in multiset(s);
    }
  }

  // ---- ties ----

  function Filtered<T>(p: T -> bool, s: seq<T>): seq<T> {
    if s == [] then [] else (if p(s[0]) then [s[0]] else []) + Filtered(p, s[1..])
  }

  lemma {:induction false} FilteredSnoc<T>(p: T -> bool, s: seq<T>, x: T)
    ensures Filtered(p, s + [x]) == Filtered(p, s) + if p(x) then [x] else []
  {
    if s == [] {
      assert s + [x] == [x] && [x][1..] == [];
    } else {
      assert (s + [x])[1..] == s[1..] + [x];
      FilteredSnoc(p, s[1..], x);
    }
  }

  lemma {:induction false} NoneFiltered<T(!new)>(p: T -> bool, s: seq<T>)
    requires forall x <- s :: !p(x)
    ensures Filtered(p, s) == []
  {
    if s != [] {
      assert forall x <- s[1..] :: x in s;
      NoneFiltered(p, s[1..]);
    }
  }

  /** No two of them come one before the other. */
  ghost predicate Ties<T(!new)>(before: Order<T>, p: T -> bool) {
    forall x, y :: p(x) && p(y) ==> !before(x, y)
  }

  lemma {:induction false} InsertedBehindTies<T(!new)>(before: Order<T>, p: T -> bool, x: T, s: seq<T>)
    requires IsOrder(before) && Sorted(before, s) && Ties(before, p)
    ensures Filtered(p, Insert(before, x, s)) == Filtered(p, s) + if p(x) then [x] else []
  {
    if s == [] || before(x, s[0]) {
      assert ([x] + s)[1..] == s;
      if p(x) {
        forall y | y in s
          ensures !p(y)
        {
          var j :| 0 <= j < |s| && s[j] == y;
          assert j > 0 ==> !before(s[j], s[0]);
        }
        NoneFiltered(p, s);
      }
    } else {
      SortedParts(before, s);
      InsertedBehindTies(before, p, x, s[1..]);
      assert ([s[0]] + Insert(before, x, s[1..]))[1..] == Insert(before, x, s[1..]);
    }
  }

  /** What ties keeps its order. */
  lemma {:induction false} SortIsStable<T(!new)>(before: Order<T>, p: T -> bool, s: seq<T>)
    requires IsOrder(before) && Ties(before, p)
    ensures Filtered(p, Sort(before, s)) == Filtered(p, s)
  {
    hide Insert, Filtered, Ties, IsOrder, Sorted;
    if s != [] {
      var n := |s| - 1;
      SortIsStable(before, p, s[..n]);
      SortSorts(before, s[..n]);
      InsertedBehindTies(before, p, s[n], Sort(before, s[..n]));
      FilteredSnoc(p, s[..n], s[n]);
      assert s[..n] + [s[n]] == s;
    }
  }

  // ---- counting ----

  function CountIf<T>(p: T -> bool, s: seq<T>): nat {
    if s == [] then 0 else (if p(s[0]) then 1 else 0) + CountIf(p, s[1..])
  }

  lemma CountNone<T>(p: T -> bool)
    ensures CountIf(p, []) == 0
  {
  }

  lemma {:induction false} CountSnoc<T>(p: T -> bool, s: seq<T>, x: T)
    ensures CountIf(p, s + [x]) == CountIf(p, s) + if p(x) then 1 else 0
  {
    if s == [] {
      assert s + [x] == [x] && [x][1..] == [];
    } else {
      assert (s + [x])[1..] == s[1..] + [x];
      CountSnoc(p, s[1..], x);
    }
  }

  lemma {:induction false} CountInserted<T>(p: T -> bool, before: Order<T>, x: T, s: seq<T>)
    ensures CountIf(p, Insert(before, x, s)) == CountIf(p, s) + if p(x) then 1 else 0
  {
    if s == [] || before(x, s[0]) {
      assert ([x] + s)[1..] == s;
    } else {
      CountInserted(p, before, x, s[1..]);
      assert ([s[0]] + Insert(before, x, s[1..]))[1..] == Insert(before, x, s[1..]);
    }
  }

  /** Sorting keeps every count. */
  lemma {:induction false} CountSorted<T>(p: T -> bool, before: Order<T>, s: seq<T>)
    ensures CountIf(p, Sort(before, s)) == CountIf(p, s)
  {
    hide Insert, CountIf;
    if s != [] {
      var n := |s| - 1;
      CountSorted(p, before, s[..n]);
      CountInserted(p, before, s[n], Sort(before, s[..n]));
      CountSnoc(p, s[..n], s[n]);
      assert s[..n] + [s[n]] == s;
    }
  }

  /** What holds of exactly the first `i` is counted `i` times. */
  lemma {:induction false} CountFront<T>(p: T -> bool, s: seq<T>, i: nat)
    requires i <= |s| && forall j :: 0 <= j < |s| ==> (p(s[j]) <==> j < i)
    ensures CountIf(p, s) == i
  {
    if s != [] {
      CountFront(p, s[1..], if i == 0 then 0 else i - 1);
    }
  }

  lemma {:induction false} CountImplied<T>(p: T -> bool, q: T -> bool, s: seq<T>)
    requires forall x :: p(x) ==> q(x)
    ensures CountIf(p, s) <= CountIf(q, s)
  {
    if s != [] {
      CountImplied(p, q, s[1..]);
    }
  }

  lemma {:induction false} CountFewer<T>(p: T -> bool, q: T -> bool, s: seq<T>, k: nat)
    requires k < |s| && q(s[k]) && !p(s[k]) && forall x :: p(x) ==> q(x)
    ensures CountIf(p, s) < CountIf(q, s)
  {
    CountImplied(p, q, s[1..]);
    if k > 0 {
      CountFewer(p, q, s[1..], k - 1);
    }
  }
}
