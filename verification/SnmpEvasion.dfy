/**
 * Per-minute request counting of the SNMP server: the evasion table (conpot/protocols/snmp/databus_mediator.py),
 * the thresholds of `check_evasive` (conpot_cmdrsp.py) and the budget of message_peek.py.
 */
module SnmpEvasion {
  import opened Sequences
  import opened Wrappers

  /** The command responders that share the table. */
  datatype Responder = Get | GetNext | Bulk | Set

  /** The two numbers of "a;b"; zero or less does not apply. */
  datatype Threshold = Threshold(individual: int, overall: int)

  type Thresholds = Responder -> Threshold

  /** The calls so far, newest outermost: the minute the clock showed, the client, and which `T` called. */
  datatype History<T> = Start | Seen(before: History<T>, minute: int, client: string, via: T)

  const OVERALL := "overall"

  /** The requests of `minute` since the clock last showed another minute. */
  function Total<T>(h: History<T>, minute: int): nat {
    if h.Start? || h.minute != minute then 0 else 1 + Total(h.before, minute)
  }

  /** Those that came from `client`. */
  function CountOf<T>(h: History<T>, minute: int, client: string): nat {
    if h.Start? || h.minute != minute then 0
    else (if h.client == client then 1 else 0) + CountOf(h.before, minute, client)
  }

  // ---------- The evasion table ----------

  type Table = map<int, map<string, nat>>

  /** The counts of one minute: "overall", and every client seen in it. */
  ghost predicate Counts<T>(counts: map<string, nat>, h: History<T>, minute: int) {
    && OVERALL in counts && counts[OVERALL] == Total(h, minute)
    && forall c | c != OVERALL :: (c in counts <==> CountOf(h, minute, c) > 0)
                               && (c in counts ==> counts[c] == CountOf(h, minute, c))
  }

  /** The table holds exactly the counts of the last minute seen. */
  ghost predicate TableOf<T>(table: Table, h: History<T>) {
    if h.Start? then table == map[]
    else h.minute in table && table == map[h.minute := table[h.minute]] && Counts(table[h.minute], h, h.minute)
  }

  predicate NamesClients<T>(h: History<T>) {
    h.Start? || (h.client != OVERALL && NamesClients(h.before))
  }

  class DatabusMediator {
    var evasion_table: Table
    ghost var seen: History<Responder>

    ghost predicate Valid()
      reads this
    {
      TableOf(evasion_table, seen)
    }

    constructor ()
      ensures Valid() && seen == Start
    {
      evasion_table, seen := map[], Start;
    }

    /** `update_evasion_table`: whatever the clock did before, the counts are those of the current minute. */
    method UpdateEvasionTable(minute: int, client: string, ghost via: Responder) returns (current: nat, overall: nat)
      requires Valid() && client != OVERALL
      modifies this
      ensures Valid() && seen == Seen(old(seen), minute, client, via)
      ensures current == CountOf(seen, minute, client) && overall == Total(seen, minute)
    {
      if minute !in evasion_table {
        evasion_table := map[];
        evasion_table := evasion_table[minute := map[]];
        evasion_table := evasion_table[minute := evasion_table[minute][OVERALL := 0]];
      }
      var counts := evasion_table[minute];
      assert Counts(counts, seen, minute);
      if client !in counts {
        counts := counts[client := 0];
      }
      counts := counts[client := counts[client] + 1];
      counts := counts[OVERALL := counts[OVERALL] + 1];
      evasion_table := evasion_table[minute := counts];
      seen := Seen(seen, minute, client, via);
      assert evasion_table == map[minute := counts];
      current, overall := counts[client], counts[OVERALL];
    }
  }

  // ---------- The overall count ----------

  /** What the table holds for these clients, added up. */
  function SumOf(counts: map<string, nat>, clients: seq<string>): nat {
    if clients == [] then 0
    else (if clients[0] in counts then counts[clients[0]] else 0) + SumOf(counts, clients[1..])
  }

  function SumCounts<T>(h: History<T>, minute: int, clients: seq<string>): nat
    decreases |clients|
  {
    if clients == [] then 0 else CountOf(h, minute, clients[0]) + SumCounts(h, minute, clients[1..])
  }

  /** One more request raises the sum by one if its client is listed. */
  lemma {:induction false} SumStep<T>(h: History<T>, minute: int, client: string, via: T, clients: seq<string>)
    requires Distinct(clients)
    ensures SumCounts(Seen(h, minute, client, via), minute, clients)
         == SumCounts(h, minute, clients) + (if client in clients then 1 else 0)
    decreases |clients|
  {
    if clients != [] {
      SumStep(h, minute, client, via, clients[1..]);
    }
  }

  lemma {:induction false} SumOfNothing<T>(h: History<T>, minute: int, clients: seq<string>)
    requires h.Start? || h.minute != minute
    ensures SumCounts(h, minute, clients) == 0
    decreases |clients|
  {
    if clients != [] {
      SumOfNothing(h, minute, clients[1..]);
    }
  }

  lemma {:induction false} TotalIsSum<T>(h: History<T>, minute: int, clients: seq<string>)
    requires Distinct(clients) && forall c :: CountOf(h, minute, c) > 0 ==> c in clients
    ensures Total(h, minute) == SumCounts(h, minute, clients)
    decreases h
  {
    if h.Start? || h.minute != minute {
      SumOfNothing(h, minute, clients);
    } else {
      assert CountOf(h, minute, h.client) > 0;
      forall c | CountOf(h.before, minute, c) > 0
        ensures c in clients
      {
        assert CountOf(h, minute, c) > 0;
      }
      TotalIsSum(h.before, minute, clients);
      SumStep(h.before, minute, h.client, h.via, clients);
    }
  }

  lemma {:induction false} SumOfTable<T>(counts: map<string, nat>, h: History<T>, minute: int, clients: seq<string>)
    requires Counts(counts, h, minute) && OVERALL !in clients
    ensures SumOf(counts, clients) == SumCounts(h, minute, clients)
    decreases |clients|
  {
    if clients != [] {
      assert clients[0] in clients;
      SumOfTable(counts, h, minute, clients[1..]);
    }
  }

  lemma {:induction false} NamedIsNotOverall<T>(h: History<T>, minute: int, client: string)
    requires NamesClients(h) && CountOf(h, minute, client) > 0
    ensures client != OVERALL
    decreases h
  {
    if h.client != client {
      NamedIsNotOverall(h.before, minute, client);
    }
  }

  /** "overall" is the sum of all other entries of the table. */
  lemma {:induction false} OverallIsSumOfClients<T>(table: Table, h: History<T>, clients: seq<string>)
    requires TableOf(table, h) && h.Seen? && Distinct(clients)
    requires forall c :: c in clients <==> c in table[h.minute] && c != OVERALL
    requires NamesClients(h)
    ensures table[h.minute][OVERALL] == SumOf(table[h.minute], clients)
  {
    var minute := h.minute;
    forall c | CountOf(h, minute, c) > 0
      ensures c in clients
    {
      NamedIsNotOverall(h, minute, c);
    }
    TotalIsSum(h, minute, clients);
    SumOfTable(table[minute], h, minute, clients);
  }

  // ---------- Thresholds ----------

  /** `check_evasive` with the thresholds of "a;b"; a threshold of zero or less does not apply. */
  method CheckEvasive(individual: nat, overall: nat, a: int, b: int) returns (evasive: bool)
    ensures evasive <==> (a > 0 && individual > a) || (b > 0 && overall > b)
  {
    if a > 0 {
      if individual > a {
        return true;
      }
    }
    if b > 0 {
      if overall > b {
        return true;
      }
    }
    evasive := false;
  }

  /** The last request of the history is answered: its own responder's thresholds are kept by the shared counts. */
  predicate Answered(h: History<Responder>, limits: Thresholds)
    requires h.Seen?
  {
    var limit := limits(h.via);
    !(limit.individual > 0 && CountOf(h, h.minute, h.client) > limit.individual) &&
    !(limit.overall > 0 && Total(h, h.minute) > limit.overall)
  }

  /** A responder's two calls: count, then compare. */
  method Respond(mediator: DatabusMediator, minute: int, client: string, via: Responder, limits: Thresholds)
    returns (answered: bool)
    requires mediator.Valid() && client != OVERALL
    modifies mediator
    ensures mediator.Valid() && mediator.seen == Seen(old(mediator.seen), minute, client, via)
    ensures answered == Answered(mediator.seen, limits)
  {
    var individual, overall := mediator.UpdateEvasionTable(minute, client, via);
    var evasive := CheckEvasive(individual, overall, limits(via).individual, limits(via).overall);
    answered := !evasive;
  }

  /** Requests of a minute that responders of `who` answered, anywhere in the run. */
  function AnsweredIn(h: History<Responder>, limits: Thresholds, who: set<Responder>, minute: int): nat {
    if h.Start? then 0
    else
      (if h.minute == minute && h.via in who && Answered(h, limits) then 1 else 0)
      + AnsweredIn(h.before, limits, who, minute)
  }

  function AnsweredTo(
      h: History<Responder>, limits: Thresholds, who: set<Responder>, minute: int, client: string): nat
  {
    if h.Start? then 0
    else
      (if h.minute == minute && h.client == client && h.via in who && Answered(h, limits) then 1 else 0)
      + AnsweredTo(h.before, limits, who, minute, client)
  }

  /** Requests of a client in the current minute that went to `who`. */
  function AskedOf(h: History<Responder>, who: set<Responder>, minute: int, client: string): nat {
    if h.Start? || h.minute != minute then 0
    else (if h.client == client && h.via in who then 1 else 0) + AskedOf(h.before, who, minute, client)
  }

  predicate ClockNeverGoesBack<T>(h: History<T>) {
    h.Start? || h.before.Start? || (h.before.minute <= h.minute && ClockNeverGoesBack(h.before))
  }

  /** With such a clock all requests of a minute are in one stretch. */
  lemma {:induction false} NothingInLaterMinutes(
      h: History<Responder>, limits: Thresholds, who: set<Responder>, minute: int, client: string)
    requires ClockNeverGoesBack(h) && (h.Start? || h.minute < minute)
    ensures AnsweredIn(h, limits, who, minute) == 0 && AnsweredTo(h, limits, who, minute, client) == 0
    decreases h
  {
    if h.Seen? {
      NothingInLaterMinutes(h.before, limits, who, minute, client);
    }
  }

  lemma {:induction false} AnsweredAreCounted(
      h: History<Responder>, limits: Thresholds, who: set<Responder>, client: string)
    requires ClockNeverGoesBack(h) && h.Seen?
    ensures AnsweredIn(h, limits, who, h.minute) <= Total(h, h.minute)
    ensures AnsweredTo(h, limits, who, h.minute, client) <= CountOf(h, h.minute, client)
    decreases h
  {
    if h.before.Seen? && h.before.minute == h.minute {
      AnsweredAreCounted(h.before, limits, who, client);
    } else {
      NothingInLaterMinutes(h.before, limits, who, h.minute, client);
    }
  }

  /** Every responder of `who` has a positive threshold of at most `a` for a client. */
  predicate IndividualWithin(limits: Thresholds, who: set<Responder>, a: int) {
    forall r | r in who :: 0 < limits(r).individual <= a
  }

  predicate OverallWithin(limits: Thresholds, who: set<Responder>, b: int) {
    forall r | r in who :: 0 < limits(r).overall <= b
  }

  /**
   * Responders whose thresholds are at most `a` and `b` together give at most `a` answers a minute to each client and
   * at most `b` in all; one responder is the case of a singleton.
   */
  lemma {:induction false} AnswersPerMinuteAreBounded(
      h: History<Responder>, limits: Thresholds, who: set<Responder>, a: nat, b: nat, minute: int, client: string)
    requires ClockNeverGoesBack(h)
    ensures OverallWithin(limits, who, b) ==> AnsweredIn(h, limits, who, minute) <= b
    ensures IndividualWithin(limits, who, a) ==> AnsweredTo(h, limits, who, minute, client) <= a
    decreases h
  {
    if h.Seen? {
      AnswersPerMinuteAreBounded(h.before, limits, who, a, b, minute, client);
      if h.minute == minute {
        AnsweredAreCounted(h, limits, who, client);
      }
    }
  }

  /** `count` is within a threshold. */
  predicate Within(threshold: int, count: nat) {
    threshold > 0 ==> count <= threshold
  }

  /** Nobody is turned away early: while both counts are within the thresholds of `who`, these answer every request. */
  lemma {:induction false} BelowThresholdsAllAreAnswered(
      h: History<Responder>, limits: Thresholds, who: set<Responder>, client: string)
    requires ClockNeverGoesBack(h) && h.Seen?
    requires forall r | r in who ::
      Within(limits(r).overall, Total(h, h.minute)) && Within(limits(r).individual, CountOf(h, h.minute, client))
    ensures AnsweredTo(h, limits, who, h.minute, client) == AskedOf(h, who, h.minute, client)
    decreases h
  {
    if h.before.Seen? && h.before.minute == h.minute {
      BelowThresholdsAllAreAnswered(h.before, limits, who, client);
    } else {
      NothingInLaterMinutes(h.before, limits, who, h.minute, client);
    }
  }

  /** The longest part of the history in which both counts of the minute are within the thresholds. */
  function UpToLimit(h: History<Responder>, minute: int, client: string, limit: Threshold): History<Responder> {
    if h.Start? || (Within(limit.individual, CountOf(h, minute, client)) && Within(limit.overall, Total(h, minute)))
    then h else UpToLimit(h.before, minute, client, limit)
  }

  lemma {:induction false} AloneInMinute(h: History<Responder>, client: string)
    requires h.Seen?
    ensures h.before.Start? || h.before.minute != h.minute ==>
      CountOf(h, h.minute, client) <= 1 && Total(h, h.minute) == 1
  {
  }

  /**
   * A responder answers exactly those of its requests that are among the first of the minute: while the client has
   * made no more than its threshold for clients allows, and all clients together no more than the overall one, to
   * whichever responder.
   */
  lemma {:induction false} FirstRequestsAreAnswered(
      h: History<Responder>, limits: Thresholds, r: Responder, client: string)
    requires ClockNeverGoesBack(h) && h.Seen?
    ensures AnsweredTo(h, limits, {r}, h.minute, client)
         == AskedOf(UpToLimit(h, h.minute, client, limits(r)), {r}, h.minute, client)
    decreases h
  {
    var limit := limits(r);
    if Within(limit.individual, CountOf(h, h.minute, client)) && Within(limit.overall, Total(h, h.minute)) {
      BelowThresholdsAllAreAnswered(h, limits, {r}, client);
    } else {
      AloneInMinute(h, client);
      FirstRequestsAreAnswered(h.before, limits, r, client);
    }
  }

  // ---------- The budget of unanswered datagrams ----------

  function CountIn(counts: map<string, nat>, client: string): nat {
    if client in counts then counts[client] else 0
  }

  ghost predicate Capped(counts: map<string, nat>, h: History<()>, minute: int, limit: nat) {
    forall c ::
      CountIn(counts, c) == (if CountOf(h, minute, c) <= limit then CountOf(h, minute, c) else limit)
  }

  /** The counts of `UnansweredBudget` stop at the limit. */
  ghost predicate Budget(counts: map<string, nat>, h: History<()>, minute: Option<int>, limit: nat) {
    if h.Start? then minute == None && counts == map[]
    else minute == Some(h.minute) && Capped(counts, h, h.minute, limit)
  }

  class UnansweredBudget {
    const limit: nat
    var minute: Option<int>
    var counts: map<string, nat>
    ghost var seen: History<()>

    ghost predicate Valid()
      reads this
    {
      Budget(counts, seen, minute, limit)
    }

    constructor (limit: nat)
      ensures Valid() && seen == Start && this.limit == limit
    {
      this.limit, minute, counts, seen := limit, None, map[], Start;
    }

    /** `allow`: the first `limit` calls of a client in a minute are allowed, and no others. */
    method Allow(now: int, client: string) returns (allowed: bool)
      requires Valid()
      modifies `minute, `counts, `seen
      ensures Valid() && seen == Seen(old(seen), now, client, ())
      ensures allowed <==> CountOf(seen, now, client) <= limit
    {
      if minute != Some(now) {
        minute := Some(now);
        counts := map[];
      }
      assert Capped(counts, seen, now, limit);
      var count := CountIn(counts, client);
      seen := Seen(seen, now, client, ());
      allowed := count < limit;
      if allowed {
        counts := counts[client := count + 1];
      }
    }
  }

  /** Calls of a client in a minute that the budget allowed, anywhere in the run. */
  function AllowedTo(h: History<()>, limit: nat, minute: int, client: string): nat {
    if h.Start? then 0
    else
      (if h.minute == minute && h.client == client && CountOf(h, minute, client) <= limit then 1 else 0)
      + AllowedTo(h.before, limit, minute, client)
  }

  lemma {:induction false} NoneAllowedLater(h: History<()>, limit: nat, minute: int, client: string)
    requires ClockNeverGoesBack(h) && (h.Start? || h.minute < minute)
    ensures AllowedTo(h, limit, minute, client) == 0
    decreases h
  {
    if h.Seen? {
      NoneAllowedLater(h.before, limit, minute, client);
    }
  }

  /** On a clock that does not go back a client is allowed as many calls in a minute as it makes, up to the limit. */
  lemma {:induction false} BudgetIsSpentExactly(h: History<()>, limit: nat, client: string)
    requires ClockNeverGoesBack(h) && h.Seen?
    ensures var asked := CountOf(h, h.minute, client);
      AllowedTo(h, limit, h.minute, client) == if asked <= limit then asked else limit
    decreases h
  {
    if h.before.Seen? && h.before.minute == h.minute {
      BudgetIsSpentExactly(h.before, limit, client);
    } else {
      NoneAllowedLater(h.before, limit, h.minute, client);
    }
  }
}
