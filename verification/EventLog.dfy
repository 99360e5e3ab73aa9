/**
 * The event log of an attack session (conpot/core/attack_session.py): events are stored under the elapsed
 * milliseconds, or under the next number that is free.
 */
module EventLog {

  /** The calls of `add_event` so far, newest outermost, with the key each event got. */
  datatype Log<T> = Empty | Added(before: Log<T>, elapsed: int, key: int, event: T)

  function Contents<T>(log: Log<T>): map<int, T> {
    if log.Empty? then map[] else Contents(log.before)[log.key := log.event]
  }

  function Events<T>(log: Log<T>): seq<T> {
    if log.Empty? then [] else Events(log.before) + [log.event]
  }

  /** Every event got the first number from its elapsed time on that was still free. */
  ghost predicate FirstFree<T>(log: Log<T>) {
    log.Empty? ||
    (FirstFree(log.before) && log.elapsed <= log.key && log.key !in Contents(log.before) &&
     forall k | log.elapsed <= k < log.key :: k in Contents(log.before))
  }

  /** A bound on the keys. */
  function Top<T>(log: Log<T>): int {
    if log.Empty? then 0 else if log.key > Top(log.before) then log.key else Top(log.before)
  }

  lemma {:induction false} KeysAreBounded<T>(log: Log<T>, k: int)
    requires k in Contents(log)
    ensures k <= Top(log)
    decreases log
  {
    if k != log.key {
      KeysAreBounded(log.before, k);
    }
  }

  class AttackSession<T> {
    var data: map<int, T>
    var log_queue: seq<T>
    ghost var log: Log<T>

    ghost predicate Valid()
      reads this
    {
      data == Contents(log) && log_queue == Events(log) && FirstFree(log)
    }

    constructor ()
      ensures Valid() && log == Empty
    {
      data, log_queue, log := map[], [], Empty;
    }

    /** `add_event`; the loop ends because the dictionary is finite. */
    method AddEvent(elapsed: int, event: T) returns (key: int)
      requires Valid()
      modifies this
      ensures Valid() && log == Added(old(log), elapsed, key, event)
      ensures key !in old(data) && data == old(data)[key := event]
    {
      key := elapsed;
      while key in data
        invariant Valid() && log == old(log) && data == old(data)
        invariant elapsed <= key && forall k | elapsed <= k < key :: k in data
        decreases Top(log) - key
      {
        KeysAreBounded(log, key);
        key := key + 1;
      }
      data := data[key := event];
      log_queue := log_queue + [event];
      log := Added(log, elapsed, key, event);
    }
  }

  /** The k-th newest call; 0 is the last one. */
  function Back<T>(log: Log<T>, k: nat): Log<T> {
    if k == 0 || log.Empty? then log else Back(log.before, k - 1)
  }

  /** No event is overwritten: every call's event is still under its key, and there are as many keys as calls. */
  lemma {:induction false} NothingIsLost<T>(log: Log<T>, k: nat)
    requires FirstFree(log)
    ensures |Contents(log)| == |Events(log)|
    ensures var call := Back(log, k);
      call.Added? ==> call.key in Contents(log) && Contents(log)[call.key] == call.event
    decreases log
  {
    if log.Added? {
      if k == 0 {
        NothingIsLost(log.before, 0);
      } else {
        NothingIsLost(log.before, k - 1);
      }
    }
  }

  predicate TimeNeverGoesBack<T>(log: Log<T>) {
    log.Empty? || log.before.Empty? || (log.before.elapsed <= log.elapsed && TimeNeverGoesBack(log.before))
  }

  /** While time never goes back, the numbers from the last elapsed time to the last key are all taken, none above. */
  lemma {:induction false} TakenUpToLastKey<T>(log: Log<T>)
    requires log.Added? && FirstFree(log) && TimeNeverGoesBack(log)
    ensures forall k | log.elapsed <= k <= log.key :: k in Contents(log)
    ensures forall k | k in Contents(log) :: k <= log.key
    ensures log.before.Added? ==> log.key > log.before.key
    decreases log
  {
    if log.before.Added? {
      TakenUpToLastKey(log.before);
      var key, taken := log.key, Contents(log.before);
      assert log.before.elapsed <= key <= log.before.key ==> key in taken;
    }
  }

  /** Each key is the elapsed time or the number after the last key, whichever is later. */
  lemma {:induction false} KeyIsMaximum<T>(log: Log<T>)
    requires log.Added? && log.before.Added? && FirstFree(log) && TimeNeverGoesBack(log)
    ensures log.key == if log.elapsed > log.before.key then log.elapsed else log.before.key + 1
  {
    TakenUpToLastKey(log);
    TakenUpToLastKey(log.before);
    var elapsed, next, taken := log.elapsed, log.before.key + 1, Contents(log.before);
    assert elapsed < log.key ==> elapsed in taken;
    assert elapsed <= next < log.key ==> next in taken;
  }

  // ---------- When key order is arrival order ----------

  /** Each call got a larger key than the call before it. */
  predicate KeysIncrease<T>(log: Log<T>) {
    log.Empty? || log.before.Empty? || (log.before.key < log.key && KeysIncrease(log.before))
  }

  /** What the dictionary shows before a call: all numbers from `elapsed` to the key of the last call are taken. */
  ghost predicate NoGap<T>(before: Log<T>, elapsed: int)
    requires before.Added?
  {
    forall k | elapsed <= k <= before.key :: k in Contents(before)
  }

  ghost predicate NeverAGap<T>(log: Log<T>) {
    log.Empty? || log.before.Empty? || (NoGap(log.before, log.elapsed) && NeverAGap(log.before))
  }

  /** Over every run and on every clock, keys increase if and only if no call ever finds a gap. */
  lemma {:induction false} KeysIncreaseIffNeverAGap<T>(log: Log<T>)
    requires FirstFree(log)
    ensures KeysIncrease(log) <==> NeverAGap(log)
    decreases log
  {
    if log.Added? && log.before.Added? {
      KeysIncreaseIffNeverAGap(log.before);
      var key, taken := log.key, Contents(log.before);
      assert log.elapsed <= key <= log.before.key && NoGap(log.before, log.elapsed) ==> key in taken;
    }
  }

  /** Increasing from call to call is increasing over the whole log. */
  lemma {:induction false} IncreasingKeysAreOrdered<T>(log: Log<T>, k: nat)
    requires KeysIncrease(log) && k > 0 && Back(log, k).Added?
    ensures log.Added? && Back(log, k).key < log.key
    decreases k
  {
    if log.Added? {
      if log.before.Added? {
        if k > 1 {
          IncreasingKeysAreOrdered(log.before, k - 1);
        }
      }
    }
  }

  lemma {:induction false} ForwardClockNeverFindsAGap<T>(log: Log<T>)
    requires FirstFree(log) && TimeNeverGoesBack(log)
    ensures NeverAGap(log)
    decreases log
  {
    if log.Added? && log.before.Added? {
      ForwardClockNeverFindsAGap(log.before);
      TakenUpToLastKey(log.before);
    }
  }

  /** While time never goes back, later calls have larger keys. */
  lemma {:induction false} KeyOrderIsArrivalOrder<T>(log: Log<T>, k: nat)
    requires FirstFree(log) && TimeNeverGoesBack(log) && k > 0 && Back(log, k).Added?
    ensures log.Added? && Back(log, k).key < log.key
  {
    ForwardClockNeverFindsAGap(log);
    KeysIncreaseIffNeverAGap(log);
    IncreasingKeysAreOrdered(log, k);
  }

  /** A clock set back into a gap files the later event first; set back behind taken numbers only, it does not. */
  lemma {:induction false} SetBackClocks()
    ensures var log := Added(Added(Empty, 5, 5, "first"), 4, 4, "second");
      FirstFree(log) && !TimeNeverGoesBack(log) && !KeysIncrease(log)
    ensures var log := Added(Added(Added(Added(Empty, 5, 5, "a"), 5, 6, "b"), 6, 7, "c"), 5, 8, "d");
      FirstFree(log) && !TimeNeverGoesBack(log) && KeysIncrease(log)
  {
    assert Contents(Added(Empty, 5, 5, "first")) == map[5 := "first"];
    var a := Added(Empty, 5, 5, "a");
    var b := Added(a, 5, 6, "b");
    var c := Added(b, 6, 7, "c");
    assert Contents(a) == map[5 := "a"];
    assert Contents(b) == map[5 := "a", 6 := "b"];
    assert Contents(c) == map[5 := "a", 6 := "b", 7 := "c"];
  }
}
