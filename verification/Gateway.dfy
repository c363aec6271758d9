/** Collecting evidence under the budgets of a session. */
module Gateway {
  import opened Options

  const MAX_ROWS_HARD := 200

  datatype Collector = Collector(id: string, rowLimit: int)

  /** A registered target; `maxCalls` and `maxRows` are its budget. */
  datatype Target = Target(enabled: bool, allowed: set<string>, maxCalls: int, maxRows: int, adapter: Adapter)

  /** The fixture adapter hands over everything recorded; the lab adapter declares a cap of its own and
      fetches one row more than it may return. `profileMax` comes from the private profile, `queryMax`
      from the certified query as read at the time of the call. */
  datatype Adapter = Fixture | Lab(profileMax: int, queryMax: int)

  /** The sanitizer's decision on one field of a row. */
  datatype Verdict<V> = Kept(value: V) | Invalid | Dropped

  datatype Payload<V> = Payload(rows: seq<seq<V>>, truncated: bool, dropped: nat, invalid: nat)

  function Min(a: int, b: int): int {
    if a <= b then a else b
  }

  function Max(a: int, b: int): int {
    if a >= b then a else b
  }

  function Take<T>(s: seq<T>, n: int): (r: seq<T>)
    ensures |r| == Max(0, Min(n, |s|)) && r <= s
  {
    if n <= 0 then [] else if n >= |s| then s else s[..n]
  }

  // ---- sanitizing rows ----

  function Clean<F, V>(judge: F -> Verdict<V>, row: seq<F>): seq<V> {
    if row == [] then []
    else
      var n := |row| - 1;
      Clean(judge, row[..n]) + (match judge(row[n]) case Kept(v) => [v] case _ => [])
  }

  function CleanRows<F, V>(judge: F -> Verdict<V>, rows: seq<seq<F>>): seq<seq<V>> {
    if rows == [] then []
    else
      var n := |rows| - 1;
      var clean := Clean(judge, rows[n]);
      CleanRows(judge, rows[..n]) + if clean == [] then [] else [clean]
  }

  function CountInvalid<F, V>(judge: F -> Verdict<V>, row: seq<F>): nat {
    if row == [] then 0
    else CountInvalid(judge, row[..|row| - 1]) + if judge(row[|row| - 1]).Invalid? then 1 else 0
  }

  function InvalidIn<F, V>(judge: F -> Verdict<V>, rows: seq<seq<F>>): nat {
    if rows == [] then 0 else InvalidIn(judge, rows[..|rows| - 1]) + CountInvalid(judge, rows[|rows| - 1])
  }

  function Width<T>(rows: seq<seq<T>>): nat {
    if rows == [] then 0 else Width(rows[..|rows| - 1]) + |rows[|rows| - 1]|
  }

  function EffectiveCap(rowCap: int, rowLimit: int): nat {
    Max(0, Min(Min(rowCap, rowLimit), MAX_ROWS_HARD))
  }

  /** The first rows within the cap are cleaned, and rows of which nothing is left go. Every field of those
      rows is kept, counted as dropped, or counted as invalid. */
  method SanitizeRows<F, V>(judge: F -> Verdict<V>, raw: seq<seq<F>>, rowCap: int, rowLimit: int) returns (p: Payload<V>)
    ensures p == Sanitized(judge, raw, rowCap, rowLimit)
    ensures Width(p.rows) + p.dropped + p.invalid == Width(Take(raw, EffectiveCap(rowCap, rowLimit)))
  {
    var within := Take(raw, EffectiveCap(rowCap, rowLimit));
    var rows: seq<seq<V>>, dropped: nat, invalid: nat := [], 0, 0;
    for i := 0 to |within|
      invariant rows == CleanRows(judge, within[..i])
      invariant invalid == InvalidIn(judge, within[..i])
      invariant Width(rows) + dropped + invalid == Width(within[..i])
    {
      var row := within[i];
      var clean: seq<V> := [];
      ghost var dropped0, invalid0 := dropped, invalid;
      for k := 0 to |row|
        invariant clean == Clean(judge, row[..k])
        invariant invalid == invalid0 + CountInvalid(judge, row[..k])
        invariant |clean| + (dropped - dropped0) + (invalid - invalid0) == k && dropped >= dropped0
      {
        assert row[..k + 1][..k] == row[..k];
        match judge(row[k]) {
          case Kept(v) => clean := clean + [v];
          case Invalid => invalid := invalid + 1;
          case Dropped => dropped := dropped + 1;
        }
      }
      assert row[..|row|] == row;
      assert within[..i + 1][..i] == within[..i];
      if clean != [] {
        assert (rows + [clean])[..|rows|] == rows;
        rows := rows + [clean];
      }
    }
    assert within[..|within|] == within;
    p := Payload(rows, |raw| > EffectiveCap(rowCap, rowLimit), dropped, invalid);
  }

  function Sanitized<F, V>(judge: F -> Verdict<V>, raw: seq<seq<F>>, rowCap: int, rowLimit: int): (p: Payload<V>)
    ensures |p.rows| <= EffectiveCap(rowCap, rowLimit)
    ensures Width(p.rows) + p.dropped + p.invalid == Width(Take(raw, EffectiveCap(rowCap, rowLimit)))
  {
    var within := Take(raw, EffectiveCap(rowCap, rowLimit));
    var rows, invalid := CleanRows(judge, within), InvalidIn(judge, within);
    NoFieldLost(judge, within);
    Payload(rows, |raw| > EffectiveCap(rowCap, rowLimit), Width(within) - Width(rows) - invalid, invalid)
  }

  lemma {:induction false} NoFieldLostInRow<F, V>(judge: F -> Verdict<V>, row: seq<F>)
    ensures |Clean(judge, row)| + CountInvalid(judge, row) <= |row|
  {
    if row != [] {
      NoFieldLostInRow(judge, row[..|row| - 1]);
    }
  }

  lemma {:induction false} NoFieldLost<F, V>(judge: F -> Verdict<V>, rows: seq<seq<F>>)
    ensures |CleanRows(judge, rows)| <= |rows|
    ensures Width(CleanRows(judge, rows)) + InvalidIn(judge, rows) <= Width(rows)
  {
    hide Clean, CountInvalid;
    if rows != [] {
      var n := |rows| - 1;
      NoFieldLost(judge, rows[..n]);
      NoFieldLostInRow(judge, rows[n]);
      var before, clean := CleanRows(judge, rows[..n]), Clean(judge, rows[n]);
      assert (before + [clean])[..|before|] == before;
      assert CleanRows(judge, rows) == if clean == [] then before else before + [clean];
    }
  }

  // ---- one collect call ----

  datatype Counters = Counters(calls: int, targetCalls: map<string, int>, targetRows: map<string, int>)

  datatype Config = Config(targets: map<string, Target>, collectors: map<string, Collector>, maxSessionCalls: int, maxRows: int)

  /** What the outside world does during a call: the rows the source holds, a result of the wrong shape, or
      a failure; `capable` is the capability verdict, `sendable` whether the envelope passes the final audit
      and the response size limit. */
  datatype World<F> = World(capable: bool, fetch: Fetch<F>, sendable: bool)

  datatype Fetch<F> = Source(rows: seq<seq<F>>) | BadShape | Failure

  datatype Call<F> = Call(alias: string, collector: string, maxRows: Option<int>, world: World<F>)

  datatype Key =
    | InvalidParams | TargetUnknown | CollectorUnknown | TargetDisabled | CollectorNotAllowed | Capability
    | BudgetExceeded | AdapterFailed | ResultInvalid

  datatype Response<V> =
    | Refused(key: Key)
    | Failed(key: Key)
    | Withheld(payload: Payload<V>)
    | Delivered(payload: Payload<V>)

  function Used(m: map<string, int>, alias: string): int {
    if alias in m then m[alias] else 0
  }

  /** Why a call is refused before the adapter is reached. */
  function Authorize<F>(cfg: Config, s: Counters, c: Call<F>): Option<Key> {
    if c.maxRows.Some? && !(1 <= c.maxRows.value <= 200) then Some(InvalidParams)
    else if c.alias !in cfg.targets then Some(TargetUnknown)
    else if c.collector !in cfg.collectors then Some(CollectorUnknown)
    else
      var t := cfg.targets[c.alias];
      if !t.enabled then Some(TargetDisabled)
      else if c.collector !in t.allowed then Some(CollectorNotAllowed)
      else if !c.world.capable then Some(Capability)
      else if s.calls >= cfg.maxSessionCalls || Used(s.targetCalls, c.alias) >= t.maxCalls || Used(s.targetRows, c.alias) >= t.maxRows
      then Some(BudgetExceeded)
      else None
  }

  /** The rows the gateway allows for a call, before the collector's and the hard limit are applied again. */
  function RowCap<F>(cfg: Config, used: int, c: Call<F>): int
    requires c.alias in cfg.targets && c.collector in cfg.collectors
  {
    var t, limit := cfg.targets[c.alias], cfg.collectors[c.collector].rowLimit;
    var cap := Min(Min(Min(if c.maxRows.Some? then c.maxRows.value else limit, limit), t.maxRows - used), cfg.maxRows);
    match t.adapter
    case Fixture => cap
    case Lab(profileMax, _) => Min(cap, Min(profileMax, limit))
  }

  /** What the adapter returns of the rows its source holds. */
  function Fetched<F>(a: Adapter, rowLimit: int, source: seq<seq<F>>): seq<seq<F>> {
    match a
    case Fixture => source
    case Lab(profileMax, queryMax) => Take(source, Min(Min(profileMax, queryMax), rowLimit) + 1)
  }

  function Step<F, V>(judge: F -> Verdict<V>, cfg: Config, s: Counters, c: Call<F>): (Counters, Response<V>) {
    var refused := Authorize(cfg, s, c);
    if refused.Some? then (s, Refused(refused.value))
    else
      var t, col := cfg.targets[c.alias], cfg.collectors[c.collector];
      var used := Used(s.targetRows, c.alias);
      var called := Counters(s.calls + 1, s.targetCalls[c.alias := Used(s.targetCalls, c.alias) + 1], s.targetRows);
      match c.world.fetch
      case Failure => (called, Failed(AdapterFailed))
      case BadShape => (called, Failed(ResultInvalid))
      case Source(rows) =>
        var p := Sanitized(judge, Fetched(t.adapter, col.rowLimit, rows), RowCap(cfg, used, c), col.rowLimit);
        (called.(targetRows := called.targetRows[c.alias := used + |p.rows|]),
         if c.world.sendable then Delivered(p) else Withheld(p))
  }

  class Session {
    var calls: int
    var targetCalls: map<string, int>
    var targetRows: map<string, int>

    constructor ()
      ensures View() == START
    {
      calls, targetCalls, targetRows := 0, map[], map[];
    }

    function View(): Counters
      reads this
    {
      Counters(calls, targetCalls, targetRows)
    }
  }

  const START := Counters(0, map[], map[])

  method Collect<F, V>(judge: F -> Verdict<V>, cfg: Config, session: Session, c: Call<F>) returns (r: Response<V>)
    modifies session
    ensures (session.View(), r) == Step(judge, cfg, old(session.View()), c)
  {
    hide Sanitized, Fetched, RowCap, Width, EffectiveCap;
    var refused := Authorize(cfg, session.View(), c);
    if refused.Some? {
      return Refused(refused.value);
    }
    var t, col := cfg.targets[c.alias], cfg.collectors[c.collector];
    session.calls := session.calls + 1;
    session.targetCalls := session.targetCalls[c.alias := Used(session.targetCalls, c.alias) + 1];
    var cap := RowCap(cfg, Used(session.targetRows, c.alias), c);
    match c.world.fetch {
      case Failure => r := Failed(AdapterFailed);
      case BadShape => r := Failed(ResultInvalid);
      case Source(rows) =>
        var p := SanitizeRows(judge, Fetched(t.adapter, col.rowLimit, rows), cap, col.rowLimit);
        session.targetRows := session.targetRows[c.alias := Used(session.targetRows, c.alias) + |p.rows|];
        r := if c.world.sendable then Delivered(p) else Withheld(p);
    }
  }

  // ---- whole sessions ----

  function After<F, V>(judge: F -> Verdict<V>, cfg: Config, calls: seq<Call<F>>): Counters {
    if calls == [] then START
    else Step(judge, cfg, After(judge, cfg, calls[..|calls| - 1]), calls[|calls| - 1]).0
  }

  function ResponseTo<F, V>(judge: F -> Verdict<V>, cfg: Config, calls: seq<Call<F>>, i: nat): Response<V>
    requires i < |calls|
  {
    Step(judge, cfg, After(judge, cfg, calls[..i]), calls[i]).1
  }

  /** Calls on a target that reached its adapter. */
  function Reached<F, V>(judge: F -> Verdict<V>, cfg: Config, calls: seq<Call<F>>, alias: string): nat {
    if calls == [] then 0
    else
      var n := |calls| - 1;
      Reached(judge, cfg, calls[..n], alias)
      + if calls[n].alias == alias && !ResponseTo(judge, cfg, calls, n).Refused? then 1 else 0
  }

  function ReachedAny<F, V>(judge: F -> Verdict<V>, cfg: Config, calls: seq<Call<F>>): nat {
    if calls == [] then 0
    else
      var n := |calls| - 1;
      ReachedAny(judge, cfg, calls[..n]) + if ResponseTo(judge, cfg, calls, n).Refused? then 0 else 1
  }

  function RowsIn<V>(r: Response<V>): nat {
    match r
    case Delivered(p) => |p.rows|
    case _ => 0
  }

  /** Rows of a target that collect calls delivered. */
  function RowsDelivered<F, V>(judge: F -> Verdict<V>, cfg: Config, calls: seq<Call<F>>, alias: string): nat {
    if calls == [] then 0
    else
      var n := |calls| - 1;
      RowsDelivered(judge, cfg, calls[..n], alias)
      + if calls[n].alias == alias then RowsIn(ResponseTo(judge, cfg, calls, n)) else 0
  }

  /** The counters stay within the budgets. */
  predicate Within(cfg: Config, s: Counters) {
    && 0 <= s.calls <= Max(0, cfg.maxSessionCalls)
    && forall a <- cfg.targets ::
         && 0 <= Used(s.targetCalls, a) <= Max(0, cfg.targets[a].maxCalls)
         && 0 <= Used(s.targetRows, a) <= Max(0, cfg.targets[a].maxRows)
  }

  lemma CapWithinBudget<F>(cfg: Config, used: int, c: Call<F>)
    requires c.alias in cfg.targets && c.collector in cfg.collectors && used < cfg.targets[c.alias].maxRows
    ensures used + EffectiveCap(RowCap(cfg, used, c), cfg.collectors[c.collector].rowLimit) <= cfg.targets[c.alias].maxRows
  {
  }

  lemma StepStaysWithin<F, V>(judge: F -> Verdict<V>, cfg: Config, s: Counters, c: Call<F>)
    requires Within(cfg, s)
    ensures Within(cfg, Step(judge, cfg, s, c).0)
  {
    hide Sanitized, RowCap, EffectiveCap;
    if Authorize(cfg, s, c).None? {
      CapWithinBudget(cfg, Used(s.targetRows, c.alias), c);
    }
  }

  /** What one call does to what is counted for a target. */
  lemma StepCounts<F, V>(judge: F -> Verdict<V>, cfg: Config, s: Counters, c: Call<F>, alias: string)
    ensures var (t, r) := Step(judge, cfg, s, c);
      && t.calls == s.calls + (if r.Refused? then 0 else 1)
      && Used(t.targetCalls, alias) == Used(s.targetCalls, alias) + (if c.alias == alias && !r.Refused? then 1 else 0)
      && Used(t.targetRows, alias) >= Used(s.targetRows, alias) + (if c.alias == alias then RowsIn(r) else 0)
  {
    hide Sanitized, RowCap, Authorize;
  }

  /** Over every sequence of collect calls, failed ones included: the session's calls and each target's calls
      are exactly the calls that reached an adapter and stay within their limits, and the rows those calls
      deliver for a target stay within its budget. */
  lemma {:induction false} BudgetsHold<F, V>(judge: F -> Verdict<V>, cfg: Config, calls: seq<Call<F>>, alias: string)
    requires alias in cfg.targets
    ensures ReachedAny(judge, cfg, calls) == After(judge, cfg, calls).calls <= Max(0, cfg.maxSessionCalls)
    ensures Reached(judge, cfg, calls, alias) == Used(After(judge, cfg, calls).targetCalls, alias) <= Max(0, cfg.targets[alias].maxCalls)
    ensures RowsDelivered(judge, cfg, calls, alias) <= Used(After(judge, cfg, calls).targetRows, alias) <= Max(0, cfg.targets[alias].maxRows)
  {
    CountersCount(judge, cfg, calls, alias);
    RunStaysWithin(judge, cfg, calls);
  }

  lemma {:induction false} RunStaysWithin<F, V>(judge: F -> Verdict<V>, cfg: Config, calls: seq<Call<F>>)
    ensures Within(cfg, After(judge, cfg, calls))
  {
    hide Step;
    if calls != [] {
      RunStaysWithin(judge, cfg, calls[..|calls| - 1]);
      StepStaysWithin(judge, cfg, After(judge, cfg, calls[..|calls| - 1]), calls[|calls| - 1]);
    }
  }

  lemma {:induction false} CountersCount<F, V>(judge: F -> Verdict<V>, cfg: Config, calls: seq<Call<F>>, alias: string)
    ensures ReachedAny(judge, cfg, calls) == After(judge, cfg, calls).calls
    ensures Reached(judge, cfg, calls, alias) == Used(After(judge, cfg, calls).targetCalls, alias)
    ensures RowsDelivered(judge, cfg, calls, alias) <= Used(After(judge, cfg, calls).targetRows, alias)
  {
    hide Step, Used, RowsIn;
    if calls == [] {
      StartIsUnused(alias);
    } else {
      var n := |calls| - 1;
      CountersCount(judge, cfg, calls[..n], alias);
      StepCounts(judge, cfg, After(judge, cfg, calls[..n]), calls[n], alias);
    }
  }

  lemma StartIsUnused(alias: string)
    ensures Used(START.targetCalls, alias) == 0 && Used(START.targetRows, alias) == 0
  {
  }

  // ---- truncation ----

  /** When a source holding more rows than the call may return is reported as truncated. The fixture always
      is. The lab adapter is exactly when the certified query's own limit, as read for this call, is not below
      the effective cap, because it is the one row beyond that limit which gives the truncation away. */
  lemma TruncationIsReported<F, V>(judge: F -> Verdict<V>, cfg: Config, s: Counters, c: Call<F>)
    requires Authorize(cfg, s, c).None? && c.world.fetch.Source? && cfg.collectors[c.collector].rowLimit >= 0
    requires var a := cfg.targets[c.alias].adapter; a.Lab? ==> a.profileMax >= 0 && a.queryMax >= 0
    ensures var (_, r) := Step(judge, cfg, s, c);
      var limit, a := cfg.collectors[c.collector].rowLimit, cfg.targets[c.alias].adapter;
      var cap := EffectiveCap(RowCap(cfg, Used(s.targetRows, c.alias), c), limit);
      r.payload.truncated <==> |c.world.fetch.rows| > cap && (a.Lab? ==> cap <= a.queryMax)
  {
  }

  /** A query whose limit was lowered to 1 below a cap of 2: of the three rows the source holds nothing more than the
      cap is fetched, and the response does not say that it is truncated. */
  lemma TruncationLost<F, V>(judge: F -> Verdict<V>, row: seq<F>)
    ensures var target := Target(true, {"c"}, 1, 9, Lab(2, 1));
      var cfg := Config(map["t" := target], map["c" := Collector("c", 2)], 1, 9);
      var call := Call("t", "c", None, World(true, Source([row, row, row]), true));
      var r := Step(judge, cfg, START, call).1;
      r.Delivered? && !r.payload.truncated && EffectiveCap(RowCap(cfg, 0, call), 2) == 2
  {
    var target := Target(true, {"c"}, 1, 9, Lab(2, 1));
    var cfg := Config(map["t" := target], map["c" := Collector("c", 2)], 1, 9);
    TruncationIsReported(judge, cfg, START, Call("t", "c", None, World(true, Source([row, row, row]), true)));
  }

  /** The catalog load admits a query only if its limit is not below the collector's; while the file keeps
      that limit, no truncation by the lab adapter goes unreported. */
  lemma CatalogLimitSuffices<F, V>(judge: F -> Verdict<V>, cfg: Config, s: Counters, c: Call<F>)
    requires Authorize(cfg, s, c).None? && c.world.fetch.Source? && cfg.collectors[c.collector].rowLimit >= 0
    requires var a := cfg.targets[c.alias].adapter; a.Lab? ==> a.profileMax >= 0 && a.queryMax >= cfg.collectors[c.collector].rowLimit
    ensures var (_, r) := Step(judge, cfg, s, c);
      var limit := cfg.collectors[c.collector].rowLimit;
      r.payload.truncated <==> |c.world.fetch.rows| > EffectiveCap(RowCap(cfg, Used(s.targetRows, c.alias), c), limit)
  {
    TruncationIsReported(judge, cfg, s, c);
  }
}
