/** JSON values, and the measure that refuses deep or wide ones before anything looks at them. */
module Json {
  import opened Options

  datatype Json =
    | Null | Bool(b: bool) | Int(n: int) | Float(r: real) | Str(s: string)
    | Arr(items: seq<Json>)
    | Obj(members: seq<Member>)

  datatype Member = Member(key: string, val: Json)

  const MAX_JSON_DEPTH := 24
  const MAX_JSON_ITEMS := 2000

  function Lookup(members: seq<Member>, key: string): Option<Json> {
    if members == [] then None
    else if members[0].key == key then Some(members[0].val)
    else Lookup(members[1..], key)
  }

  /** The value of the first member with the key. */
  lemma {:induction false} LookupIsFirst(members: seq<Member>, key: string)
    ensures Lookup(members, key) == None <==> forall m <- members :: m.key != key
    ensures forall i :: 0 <= i < |members| && members[i].key == key && (forall j :: 0 <= j < i ==> members[j].key != key) ==>
      Lookup(members, key) == Some(members[i].val)
  {
    if members != [] && members[0].key != key {
      LookupIsFirst(members[1..], key);
      forall i | 0 <= i < |members| && members[i].key == key && (forall j :: 0 <= j < i ==> members[j].key != key)
        ensures Lookup(members, key) == Some(members[i].val)
      {
        assert members[1..][i - 1] == members[i];
        assert forall j :: 0 <= j < i - 1 ==> members[1..][j] == members[j + 1];
      }
    }
  }

  /** Every listed value is a part of `j`. */
  ghost predicate Within(j: Json, c: seq<Json>) {
    forall i :: 0 <= i < |c| ==> c[i] < j
  }

  /** The values directly inside a value. */
  function Children(j: Json): (c: seq<Json>)
    ensures Within(j, c)
  {
    match j
    case Arr(items) => items
    case Obj(members) =>
      seq(|members|, i requires 0 <= i < |members| => members[i].val)
    case _ => []
  }

  // ---- the size of a value ----

  function Nodes(j: Json): nat
    decreases j, 1, 0
  {
    1 + NodesOf(j, Children(j))
  }

  function NodesOf(j: Json, children: seq<Json>): nat
    requires Within(j, children)
    decreases j, 0, |children|
  {
    if children == [] then 0 else Nodes(children[0]) + NodesOf(j, children[1..])
  }

  /** Depth of the deepest node, the value itself being at depth 0. */
  function Depth(j: Json): nat
    decreases j, 1, 0
  {
    DepthOf(j, Children(j))
  }

  function DepthOf(j: Json, children: seq<Json>): nat
    requires Within(j, children)
    decreases j, 0, |children|
  {
    if children == [] then 0
    else
      var first, rest := 1 + Depth(children[0]), DepthOf(j, children[1..]);
      if first >= rest then first else rest
  }

  /** `k` arrays, one in the other. */
  function Nested(k: nat): Json {
    if k == 0 then Null else Arr([Nested(k - 1)])
  }

  lemma {:induction false} NestedMeasures(k: nat)
    ensures Depth(Nested(k)) == k && Nodes(Nested(k)) == k + 1
  {
    if k > 0 {
      NestedMeasures(k - 1);
      var j := Nested(k);
      var c := Children(j);
      assert c == [Nested(k - 1)] && c[1..] == [];
      assert DepthOf(j, c[1..]) == 0 && NodesOf(j, c[1..]) == 0;
    }
  }

  /** A list of as many nulls. */
  function Flat(n: nat): Json {
    Arr(seq(n, i => Null))
  }

  lemma {:induction false} NullsMeasure(j: Json, c: seq<Json>)
    requires Within(j, c) && forall x <- c :: x == Null
    ensures NodesOf(j, c) == |c| && DepthOf(j, c) == if c == [] then 0 else 1
  {
    if c != [] {
      assert forall x <- c[1..] :: x in c;
      NullsMeasure(j, c[1..]);
      assert c[0] in c;
    }
  }

  /** So a value may stand in 24 arrays and not in 25, and an array may hold 1999 values and not 2000. */
  lemma LimitsByExample(k: nat)
    ensures Fits(Nested(k)) <==> k <= 24
    ensures Fits(Flat(k)) <==> k <= 1999
  {
    NestedMeasures(k);
    NullsMeasure(Flat(k), Flat(k).items);
  }

  predicate Fits(j: Json) {
    Nodes(j) <= MAX_JSON_ITEMS && Depth(j) <= MAX_JSON_DEPTH
  }

  // ---- measuring with one shared counter ----

  class Budget {
    var used: nat

    constructor ()
      ensures used == 0
    {
      used := 0;
    }
  }

  lemma {:induction false} NodesConcat(j: Json, a: seq<Json>, b: seq<Json>)
    requires Within(j, a) && Within(j, b) && Within(j, a + b)
    ensures NodesOf(j, a + b) == NodesOf(j, a) + NodesOf(j, b)
  {
    if a == [] {
      assert a + b == b;
    } else {
      NodesConcat(j, a[1..], b);
      assert (a + b)[1..] == a[1..] + b;
    }
  }

  lemma {:induction false} DepthConcat(j: Json, a: seq<Json>, b: seq<Json>)
    requires Within(j, a) && Within(j, b) && Within(j, a + b)
    ensures DepthOf(j, a + b) == if DepthOf(j, a) >= DepthOf(j, b) then DepthOf(j, a) else DepthOf(j, b)
  {
    if a == [] {
      assert a + b == b;
    } else {
      DepthConcat(j, a[1..], b);
      assert (a + b)[1..] == a[1..] + b;
    }
  }

  lemma Prefix(j: Json, c: seq<Json>, i: nat)
    requires i < |c| && Within(j, c)
    ensures Within(j, c[..i]) && Within(j, c[..i + 1])
    ensures NodesOf(j, c[..i + 1]) == NodesOf(j, c[..i]) + Nodes(c[i])
    ensures DepthOf(j, c[..i + 1]) == if DepthOf(j, c[..i]) >= 1 + Depth(c[i]) then DepthOf(j, c[..i]) else 1 + Depth(c[i])
  {
    assert c[..i + 1] == c[..i] + [c[i]];
    NodesConcat(j, c[..i], [c[i]]);
    DepthConcat(j, c[..i], [c[i]]);
    assert [c[i]][1..] == [];
  }

  lemma Whole(j: Json, c: seq<Json>, i: nat)
    requires i <= |c| && Within(j, c)
    ensures Within(j, c[..i]) && NodesOf(j, c[..i]) <= NodesOf(j, c) && DepthOf(j, c[..i]) <= DepthOf(j, c)
  {
    assert c == c[..i] + c[i..];
    NodesConcat(j, c[..i], c[i..]);
    DepthConcat(j, c[..i], c[i..]);
  }

  /** The recursion with the shared counter and the early exits. Accepting means exactly that the
      counted nodes stay within the limit and no node is too deep. */
  method Measure(j: Json, depth: nat, budget: Budget) returns (ok: bool)
    modifies budget
    ensures ok <==> old(budget.used) + Nodes(j) <= MAX_JSON_ITEMS && depth + Depth(j) <= MAX_JSON_DEPTH
    ensures ok ==> budget.used == old(budget.used) + Nodes(j)
    decreases j
  {
    budget.used := budget.used + 1;
    if depth > MAX_JSON_DEPTH || budget.used > MAX_JSON_ITEMS {
      return false;
    }
    var children := Children(j);
    for i := 0 to |children|
      invariant budget.used == old(budget.used) + 1 + NodesOf(j, children[..i]) <= MAX_JSON_ITEMS
      invariant depth + DepthOf(j, children[..i]) <= MAX_JSON_DEPTH
    {
      Prefix(j, children, i);
      Whole(j, children, i + 1);
      assert children[i] in children;
      ok := Measure(children[i], depth + 1, budget);
      if !ok {
        return;
      }
    }
    assert children[..|children|] == children;
    ok := true;
  }
}
