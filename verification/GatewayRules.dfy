/** Whom the gateway serves, and with what: the refusals, the number of rows and the fields kept, written out. */
module GatewayRules {
  import opened Gateway
  import opened Options
  import opened Sorting

  // ---- whom ----

  /** Nothing that has to do with the session stands in the way of the call. */
  predicate Entitled<F>(cfg: Config, c: Call<F>) {
    && (c.maxRows.None? || 1 <= c.maxRows.value <= 200)
    && c.alias in cfg.targets && c.collector in cfg.collectors
    && cfg.targets[c.alias].enabled && c.collector in cfg.targets[c.alias].allowed && c.world.capable
  }

  /** The rows collected for a target, sent or not. */
  function RowsCollected<F, V>(judge: F -> Verdict<V>, cfg: Config, calls: seq<Call<F>>, alias: string): nat {
    if calls == [] then 0
    else
      var n := |calls| - 1;
      var r := ResponseTo(judge, cfg, calls, n);
      RowsCollected(judge, cfg, calls[..n], alias)
      + if calls[n].alias == alias && (r.Delivered? || r.Withheld?) then |r.payload.rows| else 0
  }

  lemma StepCollects<F, V>(judge: F -> Verdict<V>, cfg: Config, s: Counters, c: Call<F>, alias: string)
    ensures var (t, r) := Step(judge, cfg, s, c);
      Used(t.targetRows, alias) == Used(s.targetRows, alias)
        + if c.alias == alias && (r.Delivered? || r.Withheld?) then |r.payload.rows| else 0
  {
    hide Sanitized, RowCap, Authorize;
  }

  lemma {:induction false} RowsAreCollected<F, V>(judge: F -> Verdict<V>, cfg: Config, calls: seq<Call<F>>, alias: string)
    ensures RowsCollected(judge, cfg, calls, alias) == Used(After(judge, cfg, calls).targetRows, alias)
  {
    hide Step, Used;
    if calls == [] {
      StartIsUnused(alias);
    } else {
      var n := |calls| - 1;
      RowsAreCollected(judge, cfg, calls[..n], alias);
      StepCollects(judge, cfg, After(judge, cfg, calls[..n]), calls[n], alias);
    }
  }

  /** Over every session: a call is served exactly when it is entitled to, and fewer calls than the session's limit,
      fewer of its target than that one's limit, and fewer rows of its target than its budget came before. */
  lemma ServedExactly<F, V>(judge: F -> Verdict<V>, cfg: Config, calls: seq<Call<F>>, i: nat)
    requires i < |calls|
    ensures var c, before := calls[i], calls[..i];
      !ResponseTo(judge, cfg, calls, i).Refused? <==>
        && Entitled(cfg, c)
        && ReachedAny(judge, cfg, before) < cfg.maxSessionCalls
        && Reached(judge, cfg, before, c.alias) < cfg.targets[c.alias].maxCalls
        && RowsCollected(judge, cfg, before, c.alias) < cfg.targets[c.alias].maxRows
  {
    hide Sanitized, RowCap, After, Reached, ReachedAny, RowsCollected, Used;
    var c, before := calls[i], calls[..i];
    CountersCount(judge, cfg, before, c.alias);
    RowsAreCollected(judge, cfg, before, c.alias);
  }

  /** Which of the conditions that fail is named, and that a refused call leaves the counters alone. */
  lemma RefusalNamed<F, V>(judge: F -> Verdict<V>, cfg: Config, s: Counters, c: Call<F>)
    ensures var (t, r) := Step(judge, cfg, s, c);
      var rows := c.maxRows.None? || 1 <= c.maxRows.value <= 200;
      && (r.Refused? ==> t == s)
      && (r == Refused(InvalidParams) <==> !rows)
      && (r == Refused(TargetUnknown) <==> rows && c.alias !in cfg.targets)
      && (r == Refused(CollectorUnknown) <==> rows && c.alias in cfg.targets && c.collector !in cfg.collectors)
      && (r == Refused(TargetDisabled) <==>
            rows && c.alias in cfg.targets && c.collector in cfg.collectors && !cfg.targets[c.alias].enabled)
      && (r == Refused(CollectorNotAllowed) <==>
            && rows && c.alias in cfg.targets && c.collector in cfg.collectors && cfg.targets[c.alias].enabled
            && c.collector !in cfg.targets[c.alias].allowed)
      && (r == Refused(Capability) <==>
            && rows && c.alias in cfg.targets && c.collector in cfg.collectors && cfg.targets[c.alias].enabled
            && c.collector in cfg.targets[c.alias].allowed && !c.world.capable)
      && (r == Refused(BudgetExceeded) <==>
            && Entitled(cfg, c)
            && (|| s.calls >= cfg.maxSessionCalls || Used(s.targetCalls, c.alias) >= cfg.targets[c.alias].maxCalls
                || Used(s.targetRows, c.alias) >= cfg.targets[c.alias].maxRows))
  {
    hide Sanitized, RowCap, Used;
  }

  // ---- with what ----

  /** The limits on the rows of a call. */
  function Limits<F>(cfg: Config, used: int, c: Call<F>): seq<int>
    requires c.alias in cfg.targets && c.collector in cfg.collectors
  {
    var t, limit := cfg.targets[c.alias], cfg.collectors[c.collector].rowLimit;
    [limit, t.maxRows - used, cfg.maxRows, 200]
    + (if c.maxRows.Some? then [c.maxRows.value] else [])
    + (if t.adapter.Lab? then [t.adapter.profileMax] else [])
  }

  /** `n` is the smallest of the limits, or 0 when some limit is negative. */
  ghost predicate Smallest(limits: seq<int>, n: nat) {
    && (n == 0 || forall l <- limits :: n <= l)
    && (exists l <- limits :: l == n || (n == 0 && l < 0))
  }

  /** The cap on the rows of a call is the smallest of its limits. */
  lemma CapIsSmallestLimit<F>(cfg: Config, used: int, c: Call<F>)
    requires c.alias in cfg.targets && c.collector in cfg.collectors
    ensures Smallest(Limits(cfg, used, c), EffectiveCap(RowCap(cfg, used, c), cfg.collectors[c.collector].rowLimit))
  {
    var t, limit := cfg.targets[c.alias], cfg.collectors[c.collector].rowLimit;
    var ls := Limits(cfg, used, c);
    assert ls[0] == limit && ls[1] == t.maxRows - used && ls[2] == cfg.maxRows && ls[3] == 200;
    assert c.maxRows.Some? ==> ls[4] == c.maxRows.value;
    assert t.adapter.Lab? ==> ls[|ls| - 1] == t.adapter.profileMax;
    assert forall k :: 0 <= k < |ls| ==> ls[k] in ls;
  }

  /** How many of the source's rows are looked at: no more than the cap, and of the lab adapter one more than its query,
      its profile and the collector let it fetch. */
  function Taken(a: Adapter, rowLimit: int, cap: nat, held: nat): nat {
    var fetched := match a
      case Fixture => held
      case Lab(profileMax, queryMax) => Max(0, Min(held, Min(Min(profileMax, queryMax), rowLimit) + 1));
    Min(cap, fetched)
  }

  /** What an entitled call within the budgets gets, and what it costs. */
  lemma CallServed<F, V>(judge: F -> Verdict<V>, cfg: Config, s: Counters, c: Call<F>)
    requires Entitled(cfg, c) && s.calls < cfg.maxSessionCalls
    requires Used(s.targetCalls, c.alias) < cfg.targets[c.alias].maxCalls && Used(s.targetRows, c.alias) < cfg.targets[c.alias].maxRows
    ensures var (t, r) := Step(judge, cfg, s, c);
      var tgt, limit := cfg.targets[c.alias], cfg.collectors[c.collector].rowLimit;
      && t.calls == s.calls + 1
      && t.targetCalls == s.targetCalls[c.alias := Used(s.targetCalls, c.alias) + 1]
      && match c.world.fetch
         case Failure => r == Failed(AdapterFailed) && t.targetRows == s.targetRows
         case BadShape => r == Failed(ResultInvalid) && t.targetRows == s.targetRows
         case Source(rows) =>
           var cap := EffectiveCap(RowCap(cfg, Used(s.targetRows, c.alias), c), limit);
           && (if c.world.sendable then r.Delivered? else r.Withheld?)
           && r.payload.rows == CleanRows(judge, rows[..Taken(tgt.adapter, limit, cap, |rows|)])
           && t.targetRows == s.targetRows[c.alias := Used(s.targetRows, c.alias) + |r.payload.rows|]
  {
    hide CleanRows, RowCap, InvalidIn, Width;
    if c.world.fetch.Source? {
      var tgt, limit := cfg.targets[c.alias], cfg.collectors[c.collector].rowLimit;
      var cap := EffectiveCap(RowCap(cfg, Used(s.targetRows, c.alias), c), limit);
      TakenTwice(tgt.adapter, limit, cap, c.world.fetch.rows);
    }
  }

  lemma TakenTwice<T>(a: Adapter, limit: int, cap: nat, rows: seq<seq<T>>)
    ensures Take(Fetched(a, limit, rows), cap) == rows[..Taken(a, limit, cap, |rows|)]
  {
  }

  // ---- which fields ----

  lemma CleanOne<F, V>(judge: F -> Verdict<V>, f: F)
    ensures Clean(judge, [f]) == match judge(f) case Kept(v) => [v] case _ => []
  {
    assert [f][..0] == [];
  }

  /** A row is cleaned field by field, in order: with the fields of one row apart, what is kept is kept apart. */
  lemma {:induction false} CleanInParts<F, V>(judge: F -> Verdict<V>, a: seq<F>, b: seq<F>)
    ensures Clean(judge, a + b) == Clean(judge, a) + Clean(judge, b)
  {
    if b == [] {
      assert a + b == a;
    } else {
      var n := |b| - 1;
      CleanInParts(judge, a, b[..n]);
      assert (a + b)[..|a + b| - 1] == a + b[..n];
    }
  }

  lemma CleanRowsOne<F, V>(judge: F -> Verdict<V>, row: seq<F>)
    ensures CleanRows(judge, [row]) == if forall f <- row :: !judge(f).Kept? then [] else [Clean(judge, row)]
  {
    hide Clean;
    assert [row][..0] == [];
    NothingClean(judge, row);
  }

  lemma {:induction false} NothingClean<F, V>(judge: F -> Verdict<V>, row: seq<F>)
    ensures Clean(judge, row) == [] <==> forall f <- row :: !judge(f).Kept?
  {
    if row != [] {
      NothingClean(judge, row[..|row| - 1]);
      assert row == row[..|row| - 1] + [row[|row| - 1]];
    }
  }

  /** And so are the rows. */
  lemma {:induction false} CleanRowsInParts<F, V>(judge: F -> Verdict<V>, a: seq<seq<F>>, b: seq<seq<F>>)
    ensures CleanRows(judge, a + b) == CleanRows(judge, a) + CleanRows(judge, b)
  {
    hide Clean;
    if b == [] {
      assert a + b == a;
    } else {
      var n := |b| - 1;
      CleanRowsInParts(judge, a, b[..n]);
      assert (a + b)[..|a + b| - 1] == a + b[..n];
    }
  }

  /** The fields counted as invalid are those judged so. */
  lemma {:induction false} InvalidAreCounted<F, V>(judge: F -> Verdict<V>, row: seq<F>)
    ensures CountInvalid(judge, row) == CountIf((f: F) => judge(f).Invalid?, row)
  {
    if row != [] {
      var n := |row| - 1;
      InvalidAreCounted(judge, row[..n]);
      CountSnoc((f: F) => judge(f).Invalid?, row[..n], row[n]);
      assert row == row[..n] + [row[n]];
    }
  }
}
