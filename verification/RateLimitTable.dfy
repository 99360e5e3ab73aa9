/**
 * The LRU-bounded source table around the token buckets (`_allow`, `_report`, `_evict` of
 * conpot/utils/rate_limit.py), as a class and as the function the class is proved against.
 */
module RateLimitTable {
  import opened Wrappers
  import opened RateLimit
  import opened Sequences

  /** An `OrderedDict` of buckets, oldest entry first; `keys[i]` owns `cells[i]`. */
  datatype Table<S> = Table(keys: seq<S>, cells: seq<Cell>) {
    ghost predicate Wf() {
      |keys| == |cells| && Distinct(keys)
    }
  }

  datatype Outcome<S> = Outcome(table: Table<S>, allowed: bool, report: Option<Report>)

  datatype Call<S> = Call(src: S, at: real)

  /** The first position of `s` from `from` on, or `|keys|` when there is none. */
  function IndexFrom<S(==)>(keys: seq<S>, s: S, from: nat): (i: nat)
    requires from <= |keys|
    ensures from <= i <= |keys| && (i < |keys| ==> keys[i] == s)
    ensures forall k | from <= k < i :: keys[k] != s
    decreases |keys| - from
  {
    if from == |keys| || keys[from] == s then from else IndexFrom(keys, s, from + 1)
  }

  function IndexOf<S(==)>(keys: seq<S>, s: S): (i: nat)
    ensures i <= |keys| && (i < |keys| ==> keys[i] == s)
    ensures forall k | 0 <= k < i :: keys[k] != s
  {
    IndexFrom(keys, s, 0)
  }

  function RemoveAt<T>(s: seq<T>, i: nat): seq<T>
    requires i < |s|
  {
    s[..i] + s[i + 1..]
  }

  /** What popping from the front leaves, down to at most `max` entries. */
  function Keep<T>(s: seq<T>, max: nat): seq<T> {
    if |s| > max then s[|s| - max..] else s
  }

  /** `_allow`, with the fail-open of `allow` when `_evict` pops from an empty table (`maxSources` < 0). */
  function TableStep<S(==)>(cfg: Config, t: Table<S>, s: S, now: real): Outcome<S>
    requires |t.keys| == |t.cells|
  {
    var i := IndexOf(t.keys, s);
    if i < |t.keys| then
      var v := Decide(cfg, Some(t.cells[i]), now);
      Outcome(Table(RemoveAt(t.keys, i) + [s], RemoveAt(t.cells, i) + [v.cell]), v.allowed, v.report)
    else if cfg.maxSources < 0 then
      Outcome(Table([], []), true, None)
    else
      var v := Decide(cfg, None, now);
      Outcome(Table(Keep(t.keys + [s], cfg.maxSources), Keep(t.cells + [v.cell], cfg.maxSources)), v.allowed, v.report)
  }

  // ---------- The class ----------

  class Bucket {
    var tokens: real
    var updated: real
    var dropped: nat
    var reported: real

    constructor (tokens: real, now: real)
      ensures Value() == Cell(tokens, now, 0, now)
    {
      this.tokens, updated, dropped, reported := tokens, now, 0, now;
    }

    function Value(): Cell
      reads this
    {
      Cell(tokens, updated, dropped, reported)
    }
  }

  function CountIn(r: Option<Report>): nat {
    if r.Some? then r.value.count else 0
  }

  class UdpRateLimiter<S(==)> {
    const cfg: Config
    var keys: seq<S>
    var buckets: seq<Bucket>

    ghost predicate Valid()
      reads this
    {
      |keys| == |buckets| && Distinct(keys) && Distinct(buckets)
    }

    ghost function View(): Table<S>
      reads this, buckets
    {
      Table(keys, seq(|buckets|, i requires 0 <= i < |buckets| reads this, buckets => buckets[i].Value()))
    }

    constructor (rate: real, burst: real, maxSources: int)
      ensures Valid() && cfg == Config(rate, burst, maxSources)
      ensures View() == Table([], [])
    {
      cfg := Config(rate, burst, maxSources);
      keys, buckets := [], [];
    }

    method Allow(source: S, now: real) returns (ok: bool, report: Option<Report>)
      requires Valid()
      modifies this, buckets
      ensures Valid()
      ensures cfg.rate <= 0.0 || cfg.burst <= 0.0 ==> ok && report == None && View() == old(View())
      ensures cfg.rate > 0.0 && cfg.burst > 0.0 ==>
        Outcome(View(), ok, report) == TableStep(cfg, old(View()), source, now)
    {
      if !cfg.Enabled() {
        return true, None;
      }
      var i := IndexOf(keys, source);
      if i < |keys| {
        ok, report := AllowKnown(i, now);
      } else {
        ok, report := AllowNew(source, now);
      }
    }

    method AllowKnown(i: nat, now: real) returns (ok: bool, report: Option<Report>)
      requires Valid() && i < |keys|
      modifies this`keys, this`buckets, buckets[i]
      ensures Valid()
      ensures var v := Decide(cfg, Some(old(View().cells[i])), now);
              && View() == Table(RemoveAt(old(keys), i) + [old(keys[i])], RemoveAt(old(View().cells), i) + [v.cell])
              && ok == v.allowed && report == v.report
    {
      var bucket := buckets[i];
      Touch(bucket, now);
      ok, report := Charge(bucket, now);
      keys, buckets := RemoveAt(keys, i) + [keys[i]], RemoveAt(buckets, i) + [bucket];
    }

    method AllowNew(source: S, now: real) returns (ok: bool, report: Option<Report>)
      requires Valid() && IndexOf(keys, source) == |keys|
      modifies this
      ensures Valid()
      ensures cfg.maxSources < 0 ==> View() == Table([], []) && ok && report == None
      ensures cfg.maxSources >= 0 ==>
                var v := Decide(cfg, None, now);
                && ok == v.allowed && report == v.report
                && View() == Table(Keep(old(keys) + [source], cfg.maxSources),
                                   Keep(old(View().cells) + [v.cell], cfg.maxSources))
    {
      var bucket := new Bucket(cfg.burst, now);
      ghost var cells := View().cells;
      Append(source, bucket);
      var raised := Evict();
      if raised {
        return true, None;
      }
      ok, report := Charge(bucket, now);
      ghost var kept := Keep(cells + [bucket.Value()], cfg.maxSources);
      forall i | 0 <= i < |buckets|
        ensures buckets[i].Value() == kept[i]
      {
        if i < |buckets| - 1 {
          assert buckets[i] != bucket;
        }
      }
    }

    method Append(source: S, bucket: Bucket)
      requires Valid() && IndexOf(keys, source) == |keys| && bucket !in buckets
      modifies this
      ensures Valid() && keys == old(keys) + [source] && buckets == old(buckets) + [bucket]
    {
      keys, buckets := keys + [source], buckets + [bucket];
    }

    method Touch(bucket: Bucket, now: real)
      modifies bucket
      ensures bucket.Value() == Refill(cfg, old(bucket.Value()), now)
    {
      var elapsed := now - bucket.updated;
      if elapsed > 0.0 {
        bucket.tokens := Min(cfg.burst, bucket.tokens + elapsed * cfg.rate);
      }
      bucket.updated := now;
    }

    method Charge(bucket: Bucket, now: real) returns (ok: bool, report: Option<Report>)
      modifies bucket
      ensures Verdict(bucket.Value(), ok, report) == Spend(old(bucket.Value()), now)
    {
      if bucket.tokens >= 1.0 {
        bucket.tokens := bucket.tokens - 1.0;
        return true, None;
      }
      bucket.dropped := bucket.dropped + 1;
      report := WriteReport(bucket, now);
      ok := false;
    }

    method WriteReport(bucket: Bucket, now: real) returns (report: Option<Report>)
      modifies bucket
      ensures if now - old(bucket.reported) < REPORT_INTERVAL
              then report == None && bucket.Value() == old(bucket.Value())
              else report == Some(Report(old(bucket.dropped), now)) &&
                   bucket.Value() == old(bucket.Value()).(dropped := 0, reported := now)
      ensures bucket.dropped + CountIn(report) == old(bucket.dropped)
    {
      if now - bucket.reported < REPORT_INTERVAL {
        return None;
      }
      report := Some(Report(bucket.dropped, now));
      bucket.dropped, bucket.reported := 0, now;
    }

    /** True when `popitem` raised on the empty table. */
    method Evict() returns (raised: bool)
      requires Valid()
      modifies this
      ensures Valid() && raised == (cfg.maxSources < 0)
      ensures keys == (if raised then [] else Keep(old(keys), cfg.maxSources))
      ensures buckets == (if raised then [] else Keep(old(buckets), cfg.maxSources))
    {
      while |keys| > cfg.maxSources && keys != []
        invariant Valid() && |keys| <= |old(keys)|
        invariant keys == old(keys)[|old(keys)| - |keys|..] && buckets == old(buckets)[|old(keys)| - |keys|..]
        invariant |keys| >= cfg.maxSources || keys == old(keys)
        decreases |keys|
      {
        keys, buckets := keys[1..], buckets[1..];
      }
      raised := |keys| > cfg.maxSources;
    }
  }

  // ---------- Whole runs ----------

  function OutcomeAt<S(==)>(cfg: Config, calls: seq<Call<S>>, j: nat): (o: Outcome<S>)
    requires j < |calls|
    ensures |o.table.keys| == |o.table.cells|
    decreases j
  {
    TableStep(cfg, TableAfter(cfg, calls, j), calls[j].src, calls[j].at)
  }

  function TableAfter<S(==)>(cfg: Config, calls: seq<Call<S>>, n: nat): (t: Table<S>)
    requires n <= |calls|
    ensures |t.keys| == |t.cells|
    decreases n, 0
  {
    if n == 0 then Table([], []) else OutcomeAt(cfg, calls, n - 1).table
  }

  /** When `s` called, among the first `n` calls. */
  function Own<S(==)>(calls: seq<Call<S>>, s: S, n: nat): seq<real>
    requires n <= |calls|
  {
    if n == 0 then []
    else Own(calls, s, n - 1) + if calls[n - 1].src == s then [calls[n - 1].at] else []
  }

  /** The distinct other sources since the last call of `s` among the first `n` calls. */
  function Others<S(==)>(calls: seq<Call<S>>, s: S, n: nat): set<S>
    requires n <= |calls|
  {
    if n == 0 || calls[n - 1].src == s then {} else Others(calls, s, n - 1) + {calls[n - 1].src}
  }

  /** A source is remembered until `maxSources` distinct other sources have called after it. */
  predicate Remembered<S(==)>(cfg: Config, calls: seq<Call<S>>, s: S, n: nat)
    requires n <= |calls|
  {
    Own(calls, s, n) != [] && |Others(calls, s, n)| < cfg.maxSources
  }

  /** The calls of `s` since its current bucket was created. */
  function Life<S(==)>(cfg: Config, calls: seq<Call<S>>, s: S, n: nat): seq<real>
    requires n <= |calls|
  {
    if n == 0 then []
    else if calls[n - 1].src != s then Life(cfg, calls, s, n - 1)
    else (if Remembered(cfg, calls, s, n - 1) then Life(cfg, calls, s, n - 1) else []) + [calls[n - 1].at]
  }

  function Elems<T(==)>(s: seq<T>): set<T> {
    if s == [] then {} else {s[0]} + Elems(s[1..])
  }

  lemma {:induction false} ElemsIn<T>(s: seq<T>, x: T)
    ensures x in Elems(s) <==> x in s
  {
    if s != [] {
      ElemsIn(s[1..], x);
      assert x in s <==> x == s[0] || x in s[1..];
    }
  }

  lemma {:induction false} DistinctCard<T>(s: seq<T>)
    requires Distinct(s)
    ensures |Elems(s)| == |s|
  {
    if s != [] {
      DistinctCard(s[1..]);
      assert s[0] !in s[1..];
      ElemsIn(s[1..], s[0]);
    }
  }

  /** The key order after `u` called, before eviction. */
  function Touched<S(==)>(keys: seq<S>, u: S): seq<S> {
    var k := IndexOf(keys, u);
    (if k < |keys| then RemoveAt(keys, k) else keys) + [u]
  }

  lemma {:induction false} IndexIsIn<S>(keys: seq<S>, s: S)
    ensures s in keys <==> IndexOf(keys, s) < |keys|
  {
  }

  /** The keys that come after `s`. */
  function After<S(==)>(keys: seq<S>, s: S): seq<S>
    requires s in keys
  {
    IndexIsIn(keys, s);
    keys[IndexOf(keys, s) + 1..]
  }

  lemma {:induction false} IndexIs<S>(keys: seq<S>, s: S, i: nat)
    requires Distinct(keys) && i < |keys| && keys[i] == s
    ensures IndexOf(keys, s) == i
  {
  }

  lemma {:induction false} ElemsConcat<T>(a: seq<T>, b: seq<T>)
    ensures Elems(a + b) == Elems(a) + Elems(b)
  {
    if a == [] {
      assert a + b == b;
    } else {
      assert (a + b)[1..] == a[1..] + b;
      ElemsConcat(a[1..], b);
    }
  }

  lemma {:induction false} TouchedMembers<S>(keys: seq<S>, u: S, s: S)
    requires Distinct(keys)
    ensures Distinct(Touched(keys, u))
    ensures s in Touched(keys, u) <==> s in keys || s == u
  {
    var k := IndexOf(keys, u);
    if k < |keys| {
      assert keys == keys[..k] + [u] + keys[k + 1..];
    }
  }

  lemma {:induction false} TouchedLast<S>(keys: seq<S>, u: S)
    requires Distinct(Touched(keys, u))
    ensures After(Touched(keys, u), u) == []
  {
    IndexIs(Touched(keys, u), u, |Touched(keys, u)| - 1);
  }

  lemma {:induction false} TouchedIndex<S>(keys: seq<S>, u: S, s: S)
    requires Distinct(keys) && Distinct(Touched(keys, u)) && s != u && s in keys
    ensures var k, i := IndexOf(keys, u), IndexOf(keys, s);
            IndexOf(Touched(keys, u), s) == if k < i then i - 1 else i
  {
    var full, k, i := Touched(keys, u), IndexOf(keys, u), IndexOf(keys, s);
    IndexIsIn(keys, s);
    var j := if k < i then i - 1 else i;
    assert full[j] == s by {
      if k < |keys| {
        assert full == keys[..k] + keys[k + 1..] + [u];
      }
    }
    IndexIs(full, s, j);
  }

  lemma {:induction false} AppendedSuffix<S>(keys: seq<S>, u: S, i: nat)
    requires i <= |keys|
    ensures Elems((keys + [u])[i..]) == Elems(keys[i..]) + {u}
  {
    assert (keys + [u])[i..] == keys[i..] + [u];
    ElemsConcat(keys[i..], [u]);
  }

  lemma {:induction false} LaterSuffix<S>(keys: seq<S>, k: nat, i: nat)
    requires k < i < |keys|
    ensures Elems((RemoveAt(keys, k) + [keys[k]])[i..]) == Elems(keys[i + 1..]) + {keys[k]}
  {
    assert (RemoveAt(keys, k) + [keys[k]])[i..] == keys[i + 1..] + [keys[k]];
    ElemsConcat(keys[i + 1..], [keys[k]]);
  }

  lemma {:induction false} ElemsSwap<T>(a: seq<T>, b: seq<T>, u: T)
    ensures Elems(a + (b + [u])) == Elems(a + ([u] + b)) + {u}
  {
    ElemsConcat(a, b + [u]);
    ElemsConcat(a, [u] + b);
    ElemsConcat(b, [u]);
    ElemsConcat([u], b);
  }

  lemma {:induction false} EarlierSuffix<S>(keys: seq<S>, k: nat, i: nat)
    requires i < k < |keys|
    ensures Elems((RemoveAt(keys, k) + [keys[k]])[i + 1..]) == Elems(keys[i + 1..]) + {keys[k]}
  {
    var a, b := keys[i + 1..k], keys[k + 1..];
    assert (RemoveAt(keys, k) + [keys[k]])[i + 1..] == a + (b + [keys[k]]);
    assert keys[i + 1..] == a + ([keys[k]] + b);
    ElemsSwap(a, b, keys[k]);
  }

  lemma {:induction false} SuffixGains<S>(keys: seq<S>, u: S, i: nat)
    requires i < |keys| && keys[i] != u
    ensures var full, k := Touched(keys, u), IndexOf(keys, u);
            Elems(full[(if k < i then i else i + 1)..]) == Elems(keys[i + 1..]) + {u}
  {
    var k := IndexOf(keys, u);
    if k == |keys| {
      AppendedSuffix(keys, u, i + 1);
    } else if k < i {
      LaterSuffix(keys, k, i);
    } else {
      EarlierSuffix(keys, k, i);
    }
  }

  lemma {:induction false} TouchedOther<S>(keys: seq<S>, u: S, s: S)
    requires s != u && s in keys && s in Touched(keys, u)
    requires var k, i := IndexOf(keys, u), IndexOf(keys, s);
             IndexOf(Touched(keys, u), s) == if k < i then i - 1 else i
    ensures Elems(After(Touched(keys, u), s)) == Elems(After(keys, s)) + {u}
  {
    IndexIsIn(keys, s);
    SuffixGains(keys, u, IndexOf(keys, s));
  }

  lemma {:induction false} CardAfter<S>(full: seq<S>, s: S)
    requires Distinct(full) && s in full
    ensures |Elems(After(full, s))| == |full| - 1 - IndexOf(full, s)
  {
    DistinctCard(After(full, s));
  }

  lemma {:induction false} KeptIndex<S>(full: seq<S>, s: S, max: nat)
    requires Distinct(full) && s in full
    ensures s in Keep(full, max) <==> IndexOf(full, s) >= |full| - |Keep(full, max)|
    ensures s in Keep(full, max) ==> IndexOf(Keep(full, max), s) == IndexOf(full, s) - (|full| - |Keep(full, max)|)
  {
    var kept := Keep(full, max);
    var cut := |full| - |kept|;
    IndexIsIn(kept, s);
    if IndexOf(full, s) >= cut {
      assert kept[IndexOf(full, s) - cut] == s;
    }
    if s in kept {
      IndexIs(full, s, cut + IndexOf(kept, s));
    }
  }

  lemma {:induction false} KeptFacts<S>(full: seq<S>, s: S, max: nat)
    requires Distinct(full) && s in full
    ensures s in Keep(full, max) <==> |Elems(After(full, s))| < max
    ensures s in Keep(full, max) ==> After(Keep(full, max), s) == After(full, s)
  {
    CardAfter(full, s);
    KeptIndex(full, s, max);
  }

  lemma {:induction false} StepKeys<S>(cfg: Config, t: Table<S>, u: S, now: real)
    requires t.Wf() && |t.keys| <= cfg.maxSources
    ensures TableStep(cfg, t, u, now).table.keys == Keep(Touched(t.keys, u), cfg.maxSources)
  {
  }

  lemma {:induction false} StepIsBounded<S>(cfg: Config, t: Table<S>, u: S, now: real)
    requires t.Wf() && |t.keys| <= cfg.maxSources
    ensures TableStep(cfg, t, u, now).table.Wf() && |TableStep(cfg, t, u, now).table.keys| <= cfg.maxSources
  {
    StepKeys(cfg, t, u, now);
    TouchedMembers(t.keys, u, u);
  }

  /** The table never holds more than `maxSources` sources, and none twice. */
  lemma {:induction false} TableIsBounded<S>(cfg: Config, calls: seq<Call<S>>, n: nat)
    requires n <= |calls| && cfg.maxSources >= 0
    ensures TableAfter(cfg, calls, n).Wf() && |TableAfter(cfg, calls, n).keys| <= cfg.maxSources
  {
    if n > 0 {
      TableIsBounded(cfg, calls, n - 1);
      StepIsBounded(cfg, TableAfter(cfg, calls, n - 1), calls[n - 1].src, calls[n - 1].at);
    }
  }

  lemma {:induction false} LargerSet<T>(a: set<T>, b: set<T>)
    requires a <= b
    ensures |a| <= |b|
  {
    var rest := b - a;
    assert b == a + rest;
  }

  ghost predicate HoldsRemembered<S>(cfg: Config, calls: seq<Call<S>>, s: S, n: nat)
    requires n <= |calls|
  {
    var keys := TableAfter(cfg, calls, n).keys;
    && (s in keys <==> Remembered(cfg, calls, s, n))
    && (s in keys ==> Elems(After(keys, s)) == Others(calls, s, n))
  }

  lemma {:induction false} CallerIsRemembered<S>(cfg: Config, calls: seq<Call<S>>, n: nat)
    requires n < |calls| && cfg.maxSources >= 0
    ensures HoldsRemembered(cfg, calls, calls[n].src, n + 1)
  {
    var keys, s := TableAfter(cfg, calls, n).keys, calls[n].src;
    TableIsBounded(cfg, calls, n);
    StepKeys(cfg, TableAfter(cfg, calls, n), s, calls[n].at);
    TouchedMembers(keys, s, s);
    TouchedLast(keys, s);
    KeptFacts(Touched(keys, s), s, cfg.maxSources);
  }

  lemma {:induction false} HeldGrowsOlder<S>(cfg: Config, calls: seq<Call<S>>, s: S, n: nat)
    requires n < |calls| && cfg.maxSources >= 0 && s != calls[n].src && HoldsRemembered(cfg, calls, s, n)
    requires s in TableAfter(cfg, calls, n).keys
    ensures HoldsRemembered(cfg, calls, s, n + 1)
  {
    var keys, u := TableAfter(cfg, calls, n).keys, calls[n].src;
    TableIsBounded(cfg, calls, n);
    StepKeys(cfg, TableAfter(cfg, calls, n), u, calls[n].at);
    TouchedMembers(keys, u, s);
    TouchedIndex(keys, u, s);
    TouchedOther(keys, u, s);
    KeptFacts(Touched(keys, u), s, cfg.maxSources);
  }

  lemma {:induction false} ForgottenStaysForgotten<S>(cfg: Config, calls: seq<Call<S>>, s: S, n: nat)
    requires n < |calls| && cfg.maxSources >= 0 && s != calls[n].src && HoldsRemembered(cfg, calls, s, n)
    requires s !in TableAfter(cfg, calls, n).keys
    ensures HoldsRemembered(cfg, calls, s, n + 1)
  {
    var keys, u := TableAfter(cfg, calls, n).keys, calls[n].src;
    TableIsBounded(cfg, calls, n);
    StepKeys(cfg, TableAfter(cfg, calls, n), u, calls[n].at);
    TouchedMembers(keys, u, s);
    LargerSet(Others(calls, s, n), Others(calls, s, n + 1));
  }

  lemma {:induction false} RunHoldsRemembered<S>(cfg: Config, calls: seq<Call<S>>, s: S, n: nat)
    requires n <= |calls| && cfg.maxSources >= 0
    ensures HoldsRemembered(cfg, calls, s, n)
  {
    if n > 0 {
      RunHoldsRemembered(cfg, calls, s, n - 1);
      if s == calls[n - 1].src {
        CallerIsRemembered(cfg, calls, n - 1);
      } else if s in TableAfter(cfg, calls, n - 1).keys {
        HeldGrowsOlder(cfg, calls, s, n - 1);
      } else {
        ForgottenStaysForgotten(cfg, calls, s, n - 1);
      }
    }
  }

  /** Eviction by recency, exactly: which sources the table holds, and who called after each of them. */
  lemma {:induction false} TableHoldsRemembered<S>(cfg: Config, calls: seq<Call<S>>, s: S, n: nat)
    requires n <= |calls| && cfg.maxSources >= 0
    ensures var keys := TableAfter(cfg, calls, n).keys;
            && (s in keys <==> Remembered(cfg, calls, s, n))
            && (s in keys ==> Elems(After(keys, s)) == Others(calls, s, n))
  {
    RunHoldsRemembered(cfg, calls, s, n);
  }

  lemma {:induction false} VerdictNeedsOnlyThePast(cfg: Config, a: seq<real>, b: seq<real>, j: nat)
    requires j < |a| <= |b| && a == b[..|a|]
    ensures VerdictAt(cfg, a, j) == VerdictAt(cfg, b, j)
  {
    if j > 0 {
      VerdictNeedsOnlyThePast(cfg, a, b, j - 1);
    }
  }

  lemma {:induction false} StepCells<S>(cfg: Config, t: Table<S>, u: S, now: real, i: nat)
    requires t.Wf() && |t.keys| <= cfg.maxSources && i < |t.keys| && t.keys[i] != u
    ensures var t', k := TableStep(cfg, t, u, now).table, IndexOf(t.keys, u);
            var j := (if k < i then i - 1 else i) - (|Touched(t.keys, u)| - |t'.keys|);
            0 <= j ==> j < |t'.cells| && t'.cells[j] == t.cells[i]
  {
  }

  lemma {:induction false} CellIsCarried<S>(cfg: Config, t: Table<S>, u: S, now: real, s: S)
    requires t.Wf() && |t.keys| <= cfg.maxSources && s != u
    ensures var t' := TableStep(cfg, t, u, now).table;
            s in t'.keys ==> s in t.keys && t'.cells[IndexOf(t'.keys, s)] == t.cells[IndexOf(t.keys, s)]
  {
    var full := Touched(t.keys, u);
    StepKeys(cfg, t, u, now);
    TouchedMembers(t.keys, u, s);
    if s in Keep(full, cfg.maxSources) {
      KeptIndex(full, s, cfg.maxSources);
      TouchedIndex(t.keys, u, s);
      IndexIsIn(t.keys, s);
      StepCells(cfg, t, u, now, IndexOf(t.keys, s));
    }
  }

  /** `s` is in the table after `n` calls only with the cell of its private bucket. */
  ghost predicate CellAgrees<S>(cfg: Config, calls: seq<Call<S>>, s: S, n: nat)
    requires n <= |calls|
  {
    var t, life := TableAfter(cfg, calls, n), Life(cfg, calls, s, n);
    s in t.keys ==>
      life != [] && t.cells[IndexOf(t.keys, s)] == VerdictAt(cfg, life, |life| - 1).cell
  }

  /** What the private bucket of the caller says to call `n`. */
  function PrivateVerdict<S(==)>(cfg: Config, calls: seq<Call<S>>, n: nat): Verdict
    requires n < |calls|
  {
    var life := Life(cfg, calls, calls[n].src, n + 1);
    VerdictAt(cfg, life, |life| - 1)
  }

  lemma {:induction false} VerdictAgrees<S>(cfg: Config, calls: seq<Call<S>>, n: nat)
    requires n < |calls| && cfg.maxSources >= 0 && CellAgrees(cfg, calls, calls[n].src, n)
    ensures var prev := (var t := TableAfter(cfg, calls, n);
                         if calls[n].src in t.keys then Some(t.cells[IndexOf(t.keys, calls[n].src)]) else None);
            Decide(cfg, prev, calls[n].at) == PrivateVerdict(cfg, calls, n)
  {
    var s := calls[n].src;
    TableHoldsRemembered(cfg, calls, s, n);
    if Remembered(cfg, calls, s, n) {
      var life, life' := Life(cfg, calls, s, n), Life(cfg, calls, s, n + 1);
      VerdictNeedsOnlyThePast(cfg, life, life', |life| - 1);
    }
  }

  lemma {:induction false} StepUsesCell<S>(cfg: Config, t: Table<S>, s: S, now: real)
    requires t.Wf() && |t.keys| <= cfg.maxSources
    ensures var v := Decide(cfg, if s in t.keys then Some(t.cells[IndexOf(t.keys, s)]) else None, now);
            var o := TableStep(cfg, t, s, now);
            && o.allowed == v.allowed && o.report == v.report
            && (s in o.table.keys ==> o.table.cells[IndexOf(o.table.keys, s)] == v.cell)
  {
    IndexIsIn(t.keys, s);
    StepIsBounded(cfg, t, s, now);
    var t' := TableStep(cfg, t, s, now).table;
    if s in t'.keys {
      IndexIs(t'.keys, s, |t'.keys| - 1);
    }
  }

  lemma {:induction false} OtherCallAgrees<S>(cfg: Config, calls: seq<Call<S>>, s: S, n: nat)
    requires n < |calls| && cfg.maxSources >= 0 && s != calls[n].src && CellAgrees(cfg, calls, s, n)
    ensures CellAgrees(cfg, calls, s, n + 1)
  {
    TableIsBounded(cfg, calls, n);
    CellIsCarried(cfg, TableAfter(cfg, calls, n), calls[n].src, calls[n].at, s);
  }

  lemma {:induction false} OwnCallAgrees<S>(cfg: Config, calls: seq<Call<S>>, n: nat)
    requires n < |calls| && cfg.maxSources >= 0 && CellAgrees(cfg, calls, calls[n].src, n)
    ensures CellAgrees(cfg, calls, calls[n].src, n + 1)
  {
    var s := calls[n].src;
    VerdictAgrees(cfg, calls, n);
    TableIsBounded(cfg, calls, n);
    StepUsesCell(cfg, TableAfter(cfg, calls, n), s, calls[n].at);
  }

  lemma {:induction false} NextCallAgrees<S>(cfg: Config, calls: seq<Call<S>>, s: S, n: nat)
    requires n < |calls| && cfg.maxSources >= 0 && CellAgrees(cfg, calls, s, n)
    ensures CellAgrees(cfg, calls, s, n + 1)
  {
    if s == calls[n].src {
      OwnCallAgrees(cfg, calls, n);
    } else {
      OtherCallAgrees(cfg, calls, s, n);
    }
  }

  lemma {:induction false} CellsAgree<S>(cfg: Config, calls: seq<Call<S>>, s: S, n: nat)
    requires n <= |calls| && cfg.maxSources >= 0
    ensures CellAgrees(cfg, calls, s, n)
  {
    if n == 0 {
      assert TableAfter(cfg, calls, 0).keys == [];
    } else {
      var m := n - 1;
      CellsAgree(cfg, calls, s, m);
      NextCallAgrees(cfg, calls, s, m);
      assert CellAgrees(cfg, calls, s, m + 1);
    }
  }

  /**
   * The shared table refines independent buckets, for every interleaving: each decision and each log line is
   * that of a private bucket run on the caller's own calls since it was last forgotten.
   */
  lemma {:induction false} TableRefinesPrivateBuckets<S>(cfg: Config, calls: seq<Call<S>>, n: nat)
    requires n < |calls| && cfg.maxSources >= 0
    ensures OutcomeAt(cfg, calls, n).allowed == PrivateVerdict(cfg, calls, n).allowed
    ensures OutcomeAt(cfg, calls, n).report == PrivateVerdict(cfg, calls, n).report
  {
    CellsAgree(cfg, calls, calls[n].src, n);
    VerdictAgrees(cfg, calls, n);
    TableIsBounded(cfg, calls, n);
    StepUsesCell(cfg, TableAfter(cfg, calls, n), calls[n].src, calls[n].at);
  }

  /** Fewer than `maxSources` distinct others between consecutive calls of `s`, throughout the run. */
  ghost predicate NeverForgotten<S>(cfg: Config, calls: seq<Call<S>>, s: S) {
    forall m: nat | m < |calls| && calls[m].src == s && Own(calls, s, m) != [] :: |Others(calls, s, m)| < cfg.maxSources
  }

  lemma {:induction false} LifeIsOwn<S>(cfg: Config, calls: seq<Call<S>>, s: S, n: nat)
    requires n <= |calls| && NeverForgotten(cfg, calls, s)
    ensures Life(cfg, calls, s, n) == Own(calls, s, n)
  {
    if n > 0 {
      LifeIsOwn(cfg, calls, s, n - 1);
    }
  }

  /**
   * Non-interference: while a source is never forgotten, its datagrams are allowed exactly as its own calls
   * conform, whatever every other source does.
   */
  lemma {:induction false} SourcesDoNotInterfere<S>(cfg: Config, calls: seq<Call<S>>, n: nat)
    requires n < |calls| && cfg.Enabled() && cfg.maxSources >= 0 && NeverForgotten(cfg, calls, calls[n].src)
    ensures var own := Own(calls, calls[n].src, n + 1);
            OutcomeAt(cfg, calls, n).allowed <==> Conforms(cfg, own, |own| - 1)
  {
    var own := Own(calls, calls[n].src, n + 1);
    TableRefinesPrivateBuckets(cfg, calls, n);
    LifeIsOwn(cfg, calls, calls[n].src, n + 1);
    BucketIsConformanceTest(cfg, own, |own| - 1);
  }

  /** The condition is exact: after `maxSources` distinct other callers a source starts with a full bucket. */
  lemma {:induction false} ForgottenSourceStartsAfresh<S>(cfg: Config, calls: seq<Call<S>>, n: nat)
    requires n < |calls| && cfg.maxSources >= 0 && |Others(calls, calls[n].src, n)| >= cfg.maxSources
    ensures PrivateVerdict(cfg, calls, n) == Decide(cfg, None, calls[n].at)
    ensures OutcomeAt(cfg, calls, n).allowed <==> cfg.burst >= 1.0
  {
    TableRefinesPrivateBuckets(cfg, calls, n);
  }

  // ---------- Drops of one source in the shared table ----------

  function CellOf<S(==)>(t: Table<S>, s: S): Option<Cell>
    requires |t.keys| == |t.cells|
  {
    if s in t.keys then
      IndexIsIn(t.keys, s);
      Some(t.cells[IndexOf(t.keys, s)])
    else None
  }

  function DroppedIn(c: Option<Cell>): nat {
    if c.Some? then c.value.dropped else 0
  }

  /** Drops of `s` that its bucket holds and no log line has reported yet. */
  function PendingOf<S(==)>(cfg: Config, calls: seq<Call<S>>, s: S, n: nat): nat
    requires n <= |calls|
  {
    DroppedIn(CellOf(TableAfter(cfg, calls, n), s))
  }

  /** Datagrams of `s` dropped among the first `n` calls. */
  function DeniedOf<S(==)>(cfg: Config, calls: seq<Call<S>>, s: S, n: nat): nat
    requires n <= |calls|
  {
    if n == 0 then 0
    else
      var denied := calls[n - 1].src == s && !OutcomeAt(cfg, calls, n - 1).allowed;
      DeniedOf(cfg, calls, s, n - 1) + if denied then 1 else 0
  }

  /** Drops that the log lines about `s` account for. */
  function LoggedOf<S(==)>(cfg: Config, calls: seq<Call<S>>, s: S, n: nat): nat
    requires n <= |calls|
  {
    if n == 0 then 0
    else
      var reported := CountIn(OutcomeAt(cfg, calls, n - 1).report);
      LoggedOf(cfg, calls, s, n - 1) + if calls[n - 1].src == s then reported else 0
  }

  /** What the bucket of `s` holds once call `m` has been charged, before it is known whether the bucket stays. */
  function ChargedAt<S(==)>(cfg: Config, calls: seq<Call<S>>, s: S, m: nat): Option<Cell>
    requires m < |calls|
  {
    var c := CellOf(TableAfter(cfg, calls, m), s);
    if calls[m].src == s && cfg.maxSources >= 0 then Some(Decide(cfg, c, calls[m].at).cell) else c
  }

  /** Call `m` evicts the bucket of `s` while drops are pending in it. */
  predicate EvictsPending<S(==)>(cfg: Config, calls: seq<Call<S>>, s: S, m: nat)
    requires m < |calls|
  {
    s !in TableAfter(cfg, calls, m + 1).keys && DroppedIn(ChargedAt(cfg, calls, s, m)) > 0
  }

  /** Drops of `s` that were pending in its buckets when these were evicted. */
  function LostOf<S(==)>(cfg: Config, calls: seq<Call<S>>, s: S, n: nat): nat
    requires n <= |calls|
  {
    if n == 0 then 0
    else
      LostOf(cfg, calls, s, n - 1)
      + if EvictsPending(cfg, calls, s, n - 1) then DroppedIn(ChargedAt(cfg, calls, s, n - 1)) else 0
  }

  lemma {:induction false} DecideConservesDrops(cfg: Config, prev: Option<Cell>, now: real)
    ensures var v := Decide(cfg, prev, now);
      DroppedIn(prev) + (if v.allowed then 0 else 1) == v.cell.dropped + CountIn(v.report)
  {
  }

  /** One call moves the drops of `s` between pending, logged and lost. */
  lemma {:induction false} CallConservesDrops<S>(cfg: Config, calls: seq<Call<S>>, s: S, m: nat)
    requires m < |calls| && cfg.maxSources >= 0
    ensures var o := OutcomeAt(cfg, calls, m);
      PendingOf(cfg, calls, s, m) + (if calls[m].src == s && !o.allowed then 1 else 0)
      == (if calls[m].src == s then CountIn(o.report) else 0) + DroppedIn(ChargedAt(cfg, calls, s, m))
    ensures s in TableAfter(cfg, calls, m + 1).keys ==>
      CellOf(TableAfter(cfg, calls, m + 1), s) == ChargedAt(cfg, calls, s, m)
  {
    var t, u, now := TableAfter(cfg, calls, m), calls[m].src, calls[m].at;
    TableIsBounded(cfg, calls, m);
    if u == s {
      StepUsesCell(cfg, t, s, now);
      DecideConservesDrops(cfg, CellOf(t, s), now);
    } else {
      CellIsCarried(cfg, t, u, now, s);
    }
  }

  lemma {:induction false} NegativeBoundDropsNothing<S>(cfg: Config, calls: seq<Call<S>>, s: S, n: nat)
    requires n <= |calls| && cfg.maxSources < 0
    ensures TableAfter(cfg, calls, n) == Table([], [])
    ensures DeniedOf(cfg, calls, s, n) == 0 && LoggedOf(cfg, calls, s, n) == 0 && LostOf(cfg, calls, s, n) == 0
  {
    if n > 0 {
      NegativeBoundDropsNothing(cfg, calls, s, n - 1);
    }
  }

  /** Over every run: the drops of a source are those in its log lines, those pending, and those evicted unreported. */
  lemma {:induction false} DropsOfSource<S>(cfg: Config, calls: seq<Call<S>>, s: S, n: nat)
    requires n <= |calls|
    ensures DeniedOf(cfg, calls, s, n)
         == LoggedOf(cfg, calls, s, n) + PendingOf(cfg, calls, s, n) + LostOf(cfg, calls, s, n)
  {
    if cfg.maxSources < 0 {
      NegativeBoundDropsNothing(cfg, calls, s, n);
    } else if n > 0 {
      DropsOfSource(cfg, calls, s, n - 1);
      CallConservesDrops(cfg, calls, s, n - 1);
    }
  }

  lemma {:induction false} LostOnlyByEviction<S>(cfg: Config, calls: seq<Call<S>>, s: S, n: nat)
    requires n <= |calls|
    ensures LostOf(cfg, calls, s, n) == 0 <==> forall m: nat | m < n :: !EvictsPending(cfg, calls, s, m)
  {
    if n > 0 {
      LostOnlyByEviction(cfg, calls, s, n - 1);
    }
  }

  /**
   * What can be seen before source `u` calls: drops of `s` are about to be lost. `s` is the oldest entry of a full
   * table, has drops pending, and the caller is new; or nothing is kept at all and `s` itself is refused at once.
   */
  predicate AboutToLose<S(==)>(cfg: Config, t: Table<S>, u: S, s: S)
    requires |t.keys| == |t.cells|
  {
    if u == s then cfg.maxSources == 0 && cfg.burst < 1.0
    else
      u !in t.keys && t.keys != [] && |t.keys| == cfg.maxSources && t.keys[0] == s && t.cells[0].dropped > 0
  }

  lemma {:induction false} NewcomerEvictsOldest<S>(keys: seq<S>, u: S, s: S, max: nat)
    requires Distinct(keys) && |keys| <= max && u !in keys && s in keys
    ensures s !in Keep(Touched(keys, u), max) <==> |keys| == max && keys[0] == s
  {
    IndexIsIn(keys, u);
    assert Touched(keys, u) == keys + [u];
    var i := IndexOf(keys, s);
    IndexIsIn(keys, s);
    if |keys| == max {
      assert Keep(keys + [u], max) == keys[1..] + [u];
      if i > 0 {
        assert (keys[1..] + [u])[i - 1] == s;
      }
    }
  }

  lemma {:induction false} KnownEvictsNobody<S>(keys: seq<S>, u: S, s: S, max: nat)
    requires Distinct(keys) && |keys| <= max && u in keys
    ensures s in Keep(Touched(keys, u), max) <==> s in keys
  {
    IndexIsIn(keys, u);
    TouchedMembers(keys, u, s);
  }

  lemma {:induction false} KeptOrOldest<S>(cfg: Config, keys: seq<S>, u: S, s: S)
    requires cfg.maxSources >= 0 && Distinct(keys) && |keys| <= cfg.maxSources && u != s && s in keys
    ensures s !in Keep(Touched(keys, u), cfg.maxSources) <==> u !in keys && |keys| == cfg.maxSources && keys[0] == s
  {
    if u in keys {
      KnownEvictsNobody(keys, u, s, cfg.maxSources);
    } else {
      NewcomerEvictsOldest(keys, u, s, cfg.maxSources);
    }
  }

  lemma {:induction false} OldestCell<S>(t: Table<S>, s: S)
    requires t.Wf() && s in t.keys
    ensures t.keys[0] == s ==> CellOf(t, s) == Some(t.cells[0])
  {
    if t.keys[0] == s {
      IndexIs(t.keys, s, 0);
    }
  }

  lemma {:induction false} KeysAfterCall<S>(cfg: Config, calls: seq<Call<S>>, m: nat)
    requires m < |calls| && cfg.maxSources >= 0
    ensures TableAfter(cfg, calls, m).Wf() && |TableAfter(cfg, calls, m).keys| <= cfg.maxSources
    ensures TableAfter(cfg, calls, m + 1).keys
         == Keep(Touched(TableAfter(cfg, calls, m).keys, calls[m].src), cfg.maxSources)
  {
    TableIsBounded(cfg, calls, m);
    assert TableAfter(cfg, calls, m + 1) == OutcomeAt(cfg, calls, m).table;
    StepKeys(cfg, TableAfter(cfg, calls, m), calls[m].src, calls[m].at);
  }

  lemma {:induction false} OtherIsLostIff<S>(cfg: Config, calls: seq<Call<S>>, s: S, m: nat)
    requires m < |calls| && cfg.maxSources >= 0 && calls[m].src != s
    ensures EvictsPending(cfg, calls, s, m) <==> AboutToLose(cfg, TableAfter(cfg, calls, m), calls[m].src, s)
  {
    var t, u := TableAfter(cfg, calls, m), calls[m].src;
    KeysAfterCall(cfg, calls, m);
    if s in t.keys {
      KeptOrOldest(cfg, t.keys, u, s);
      OldestCell(t, s);
    } else {
      assert CellOf(t, s) == None;
    }
  }

  lemma {:induction false} CallerIsLostIff<S>(cfg: Config, calls: seq<Call<S>>, m: nat)
    requires m < |calls| && cfg.maxSources >= 0
    ensures EvictsPending(cfg, calls, calls[m].src, m)
       <==> AboutToLose(cfg, TableAfter(cfg, calls, m), calls[m].src, calls[m].src)
  {
    var t, s := TableAfter(cfg, calls, m), calls[m].src;
    TableIsBounded(cfg, calls, m);
    TableIsBounded(cfg, calls, m + 1);
    StepKeys(cfg, t, s, calls[m].at);
    TouchedMembers(t.keys, s, s);
    TouchedLast(t.keys, s);
    KeptFacts(Touched(t.keys, s), s, cfg.maxSources);
  }

  /** A loss can be foreseen from the table before the call. */
  lemma {:induction false} EvictsPendingIffAboutToLose<S>(cfg: Config, calls: seq<Call<S>>, s: S, m: nat)
    requires m < |calls|
    ensures EvictsPending(cfg, calls, s, m) <==> AboutToLose(cfg, TableAfter(cfg, calls, m), calls[m].src, s)
  {
    if cfg.maxSources < 0 {
      NegativeBoundDropsNothing(cfg, calls, s, m);
    } else if calls[m].src == s {
      CallerIsLostIff(cfg, calls, m);
    } else {
      OtherIsLostIff(cfg, calls, s, m);
    }
  }

  /**
   * Every drop of a source is logged or pending if and only if no call ever finds the source's bucket about to be
   * evicted with drops pending in it.
   */
  lemma {:induction false} DropsAreKeptIffNoneIsEvicted<S>(cfg: Config, calls: seq<Call<S>>, s: S, n: nat)
    requires n <= |calls|
    ensures DeniedOf(cfg, calls, s, n) == LoggedOf(cfg, calls, s, n) + PendingOf(cfg, calls, s, n)
       <==> forall m: nat | m < n :: !AboutToLose(cfg, TableAfter(cfg, calls, m), calls[m].src, s)
  {
    DropsOfSource(cfg, calls, s, n);
    LostOnlyByEviction(cfg, calls, s, n);
    forall m: nat | m < n
      ensures EvictsPending(cfg, calls, s, m) <==> AboutToLose(cfg, TableAfter(cfg, calls, m), calls[m].src, s)
    {
      EvictsPendingIffAboutToLose(cfg, calls, s, m);
    }
  }

  /** A source that has not called, or is remembered: `RememberedBefore` takes it one call back. */
  ghost predicate UnseenOrRemembered<S>(cfg: Config, calls: seq<Call<S>>, s: S, n: nat)
    requires n <= |calls|
  {
    Own(calls, s, n) == [] || Remembered(cfg, calls, s, n)
  }

  lemma {:induction false} RememberedBefore<S>(cfg: Config, calls: seq<Call<S>>, s: S, n: nat)
    requires 0 < n <= |calls| && NeverForgotten(cfg, calls, s) && UnseenOrRemembered(cfg, calls, s, n)
    ensures UnseenOrRemembered(cfg, calls, s, n - 1)
  {
    if calls[n - 1].src != s {
      LargerSet(Others(calls, s, n - 1), Others(calls, s, n));
    }
  }

  lemma {:induction false} RememberedIsNotEvicted<S>(cfg: Config, calls: seq<Call<S>>, s: S, m: nat)
    requires m < |calls| && cfg.maxSources >= 0
    requires UnseenOrRemembered(cfg, calls, s, m) && UnseenOrRemembered(cfg, calls, s, m + 1)
    ensures !EvictsPending(cfg, calls, s, m)
  {
    TableHoldsRemembered(cfg, calls, s, m + 1);
    if Own(calls, s, m + 1) == [] {
      TableHoldsRemembered(cfg, calls, s, m);
    }
  }

  lemma {:induction false} RememberedLosesNothing<S>(cfg: Config, calls: seq<Call<S>>, s: S, n: nat)
    requires n <= |calls| && cfg.maxSources >= 0 && NeverForgotten(cfg, calls, s)
    requires UnseenOrRemembered(cfg, calls, s, n)
    ensures LostOf(cfg, calls, s, n) == 0
  {
    if n > 0 {
      RememberedBefore(cfg, calls, s, n);
      RememberedIsNotEvicted(cfg, calls, s, n - 1);
      RememberedLosesNothing(cfg, calls, s, n - 1);
    }
  }

  /** While a source is never forgotten, its drops are exactly those in its log lines and those in its bucket. */
  lemma {:induction false} RememberedDropsAreKept<S>(cfg: Config, calls: seq<Call<S>>, s: S, n: nat)
    requires n <= |calls| && cfg.maxSources >= 0 && NeverForgotten(cfg, calls, s)
    requires s in TableAfter(cfg, calls, n).keys
    ensures DeniedOf(cfg, calls, s, n)
         == LoggedOf(cfg, calls, s, n) + CellOf(TableAfter(cfg, calls, n), s).value.dropped
  {
    TableHoldsRemembered(cfg, calls, s, n);
    RememberedLosesNothing(cfg, calls, s, n);
    DropsOfSource(cfg, calls, s, n);
  }

  /** A second source in a table of one: the drop of the first is in no log line and in no bucket. */
  lemma {:induction false} EvictionLosesADrop()
    ensures var cfg := Config(1.0, 1.0, 1);
      var calls := [Call("a", 0.0), Call("a", 0.0), Call("b", 0.0)];
      && DeniedOf(cfg, calls, "a", 3) == 1 && LoggedOf(cfg, calls, "a", 3) == 0
      && PendingOf(cfg, calls, "a", 3) == 0 && EvictsPending(cfg, calls, "a", 2)
  {
    var cfg := Config(1.0, 1.0, 1);
    var calls := [Call("a", 0.0), Call("a", 0.0), Call("b", 0.0)];
    assert TableAfter(cfg, calls, 1) == Table(["a"], [Cell(0.0, 0.0, 0, 0.0)]);
    assert TableAfter(cfg, calls, 2) == Table(["a"], [Cell(0.0, 0.0, 1, 0.0)]);
    assert TableAfter(cfg, calls, 3) == Table(["b"], [Cell(0.0, 0.0, 0, 0.0)]);
    assert DeniedOf(cfg, calls, "a", 1) == 0 && DeniedOf(cfg, calls, "a", 2) == 1;
    assert LoggedOf(cfg, calls, "a", 1) == 0 && LoggedOf(cfg, calls, "a", 2) == 0;
  }

  // ---------- Spacing of the log lines about one source ----------

  ghost predicate ClockNeverGoesBack<S>(calls: seq<Call<S>>) {
    forall i, j | 0 <= i < j < |calls| :: calls[i].at <= calls[j].at
  }

  /** A bucket that is there after a log line was written, or made, at call `i` remembers a time no earlier. */
  lemma {:induction false} BucketRemembersReport<S>(cfg: Config, calls: seq<Call<S>>, i: nat, n: nat)
    requires i < n <= |calls| && cfg.maxSources >= 0 && ClockNeverGoesBack(calls)
    requires OutcomeAt(cfg, calls, i).report.Some?
    ensures var c := CellOf(TableAfter(cfg, calls, n), calls[i].src);
      c.Some? ==> c.value.reported >= calls[i].at
  {
    var m, s := n - 1, calls[i].src;
    CallConservesDrops(cfg, calls, s, m);
    TableIsBounded(cfg, calls, m);
    StepUsesCell(cfg, TableAfter(cfg, calls, m), calls[m].src, calls[m].at);
    if i < m {
      assert calls[i].at <= calls[m].at;
      BucketRemembersReport(cfg, calls, i, m);
    }
  }

  /** Log lines about one source are at least REPORT_INTERVAL apart, however often it was evicted between them. */
  lemma {:induction false} ReportsOfSourceAreSpaced<S>(cfg: Config, calls: seq<Call<S>>, i: nat, j: nat)
    requires i < j < |calls| && ClockNeverGoesBack(calls) && calls[i].src == calls[j].src
    requires OutcomeAt(cfg, calls, i).report.Some? && OutcomeAt(cfg, calls, j).report.Some?
    ensures calls[j].at >= calls[i].at + REPORT_INTERVAL
  {
    if cfg.maxSources < 0 {
      NegativeBoundDropsNothing(cfg, calls, calls[j].src, j);
    } else {
      BucketRemembersReport(cfg, calls, i, j);
      TableIsBounded(cfg, calls, j);
      StepUsesCell(cfg, TableAfter(cfg, calls, j), calls[j].src, calls[j].at);
    }
  }

  // ---------- When a log line about one source is due ----------

  /** When the last log line about `s` was written or, if that is later, its present bucket was made. */
  function LastMark<S(==)>(cfg: Config, calls: seq<Call<S>>, s: S, n: nat): real
    requires n <= |calls|
  {
    if n == 0 then 0.0
    else if calls[n - 1].src == s &&
      (!Remembered(cfg, calls, s, n - 1) || OutcomeAt(cfg, calls, n - 1).report.Some?) then calls[n - 1].at
    else LastMark(cfg, calls, s, n - 1)
  }

  lemma {:induction false} ReportedIsLastMark<S>(cfg: Config, calls: seq<Call<S>>, s: S, n: nat)
    requires n <= |calls| && cfg.maxSources >= 0
    ensures var c := CellOf(TableAfter(cfg, calls, n), s);
      c.Some? ==> c.value.reported == LastMark(cfg, calls, s, n)
  {
    if n > 0 {
      var m := n - 1;
      ReportedIsLastMark(cfg, calls, s, m);
      CallConservesDrops(cfg, calls, s, m);
      TableHoldsRemembered(cfg, calls, s, m);
      TableIsBounded(cfg, calls, m);
      StepUsesCell(cfg, TableAfter(cfg, calls, m), calls[m].src, calls[m].at);
      if calls[m].src != s {
        CellIsCarried(cfg, TableAfter(cfg, calls, m), calls[m].src, calls[m].at, s);
      }
    }
  }

  /**
   * In the shared table a log line about a source is written when it is due and only then: by a refused call of a
   * source that is remembered, 60 seconds or more after its last line or the making of its bucket.
   */
  lemma {:induction false} LineOfSourceIsWrittenWhenDue<S>(cfg: Config, calls: seq<Call<S>>, n: nat)
    requires n < |calls| && cfg.maxSources >= 0
    ensures OutcomeAt(cfg, calls, n).report.Some? <==>
            && !OutcomeAt(cfg, calls, n).allowed && Remembered(cfg, calls, calls[n].src, n)
            && calls[n].at - LastMark(cfg, calls, calls[n].src, n) >= 60.0
  {
    var s := calls[n].src;
    ReportedIsLastMark(cfg, calls, s, n);
    TableHoldsRemembered(cfg, calls, s, n);
    TableIsBounded(cfg, calls, n);
    StepUsesCell(cfg, TableAfter(cfg, calls, n), s, calls[n].at);
  }
}
