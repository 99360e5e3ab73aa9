/**
 * GetBulk of SNMP (conpot/protocols/snmp/conpot_cmdrsp.py), section 4.2.3 of RFC 3416. `next` stands for
 * `read_next_variables`, which answers each variable binding on its own.
 */
module SnmpBulk {
  import opened Sequences
  import opened Wrappers

  function Iterate<T>(next: T -> T, n: nat, x: T): T {
    if n == 0 then x else next(Iterate(next, n - 1, x))
  }

  /** `read_next_variables` on a list. */
  function Successors<T>(next: T -> T, binds: seq<T>): (r: seq<T>)
    ensures |r| == |binds|
  {
    if binds == [] then [] else Successors(next, binds[..|binds| - 1]) + [next(binds[|binds| - 1])]
  }

  lemma {:induction false} SuccessorsAt<T>(next: T -> T, binds: seq<T>, i: nat)
    requires i < |binds|
    ensures Successors(next, binds)[i] == next(binds[i])
  {
    if i < |binds| - 1 {
      SuccessorsAt(next, binds[..|binds| - 1], i);
    }
  }

  /** Python's `s[-k:]`, which is all of `s` when `k` is 0. */
  function Last<T>(s: seq<T>, k: nat): seq<T> {
    if k == 0 || k >= |s| then s else s[|s| - k..]
  }

  function Max0(n: int): nat {
    if n < 0 then 0 else n
  }

  function Min(a: nat, b: nat): nat {
    if a < b then a else b
  }

  /** N of the RFC. */
  function NonRepeaters(requested: int, length: nat): nat {
    Min(Max0(requested), length)
  }

  /** M of the RFC, cut so that the repetitions fit; without repeaters there are none. */
  function Repetitions(requested: int, repeaters: nat, maxVarbinds: nat): nat {
    if repeaters == 0 then 0 else Min(Max0(requested), maxVarbinds / repeaters)
  }

  // ---------- The layout the RFC asks for ----------

  /** The repeaters after `n` steps. */
  function Row<T>(next: T -> T, repeaters: seq<T>, n: nat): (r: seq<T>)
    ensures |r| == |repeaters|
  {
    if n == 0 then repeaters else Successors(next, Row(next, repeaters, n - 1))
  }

  lemma {:induction false} RowAt<T>(next: T -> T, repeaters: seq<T>, n: nat, j: nat)
    requires j < |repeaters|
    ensures Row(next, repeaters, n)[j] == Iterate(next, n, repeaters[j])
  {
    if n > 0 {
      RowAt(next, repeaters, n - 1, j);
      SuccessorsAt(next, Row(next, repeaters, n - 1), j);
    }
  }

  /** Rows 1 to `m`. */
  function Rows<T>(next: T -> T, repeaters: seq<T>, m: nat): seq<T> {
    if m == 0 then [] else Rows(next, repeaters, m - 1) + Row(next, repeaters, m)
  }

  lemma {:induction false} RowsLength<T>(next: T -> T, repeaters: seq<T>, m: nat)
    ensures |Rows(next, repeaters, m)| == m * |repeaters|
  {
    if m > 0 {
      RowsLength(next, repeaters, m - 1);
      assert m * |repeaters| == (m - 1) * |repeaters| + |repeaters|;
    }
  }

  lemma {:induction false} MulMonotone(a: nat, b: nat, c: nat)
    requires a <= b
    ensures a * c <= b * c
  {
    assert (b - a) * c >= 0;
  }

  lemma {:induction false} RowBefore(i: nat, j: nat, m: nat, r: nat)
    requires i < m && j < r
    ensures 0 <= i * r + j < m * r && (i < m - 1 ==> i * r + j < (m - 1) * r)
  {
    assert (i + 1) * r == i * r + r;
    MulMonotone(i + 1, m, r);
    if i < m - 1 {
      MulMonotone(i + 1, m - 1, r);
    }
  }

  /** Entry `j` of row `i` is its repeater after `i + 1` steps. */
  lemma {:induction false} RowsEntry<T>(next: T -> T, repeaters: seq<T>, m: nat, i: nat, j: nat)
    requires i < m && j < |repeaters|
    ensures 0 <= i * |repeaters| + j < |Rows(next, repeaters, m)|
    ensures Rows(next, repeaters, m)[i * |repeaters| + j] == Iterate(next, i + 1, repeaters[j])
  {
    var r := |repeaters|;
    RowBefore(i, j, m, r);
    RowsLength(next, repeaters, m);
    RowsLength(next, repeaters, m - 1);
    if i < m - 1 {
      RowsEntry(next, repeaters, m - 1, i, j);
    } else {
      RowAt(next, repeaters, m, j);
    }
  }

  /** The whole response. */
  function Layout<T>(next: T -> T, req: seq<T>, n: nat, m: nat): seq<T>
    requires n <= |req|
  {
    Successors(next, req[..n]) + Rows(next, req[n..], m)
  }

  /** The response is N successors of the non-repeaters, then M rows of the repeaters. */
  lemma {:induction false} LayoutEntries<T>(next: T -> T, req: seq<T>, n: nat, m: nat, i: nat, j: nat)
    requires n <= |req| && i < m && j < |req| - n
    ensures var r := |req| - n;
            && |Layout(next, req, n, m)| == n + m * r
            && 0 <= i * r + j < m * r
            && Layout(next, req, n, m)[n + (i * r + j)] == Iterate(next, i + 1, req[n + j])
  {
    RowsLength(next, req[n..], m);
    RowsEntry(next, req[n..], m, i, j);
  }

  lemma {:induction false} LayoutStart<T>(next: T -> T, req: seq<T>, n: nat, m: nat)
    requires n <= |req|
    ensures |Layout(next, req, n, m)| == n + m * (|req| - n)
    ensures forall k | 0 <= k < n :: Layout(next, req, n, m)[k] == next(req[k])
  {
    RowsLength(next, req[n..], m);
    forall k | 0 <= k < n
      ensures Layout(next, req, n, m)[k] == next(req[k])
    {
      SuccessorsAt(next, req[..n], k);
    }
  }

  lemma {:induction false} DivisionBounds(n: nat, d: nat, q: nat)
    requires d > 0 && q == n / d
    ensures q * d <= n < (q + 1) * d
  {
    assert n == d * q + n % d;
  }

  /** The number of repetitions is the largest that was asked for and fits the limit. */
  lemma {:induction false} RepetitionsAreMaximal(requested: int, repeaters: nat, maxVarbinds: nat, k: nat)
    requires repeaters > 0
    ensures k <= Repetitions(requested, repeaters, maxVarbinds)
       <==> k <= Max0(requested) && k * repeaters <= maxVarbinds
  {
    var q := maxVarbinds / repeaters;
    DivisionBounds(maxVarbinds, repeaters, q);
    if k <= q {
      MulMonotone(k, q, repeaters);
    } else {
      MulMonotone(q + 1, k, repeaters);
    }
  }

  lemma {:induction false} RowResumes<T>(next: T -> T, repeaters: seq<T>, m: nat, k: nat)
    ensures Row(next, Row(next, repeaters, m), k) == Row(next, repeaters, m + k)
  {
    if k > 0 {
      RowResumes(next, repeaters, m, k - 1);
    }
  }

  /** A walk cut into several requests, each asking on from the last row, sees the rows of one long request. */
  lemma {:induction false} RowsResume<T>(next: T -> T, repeaters: seq<T>, m: nat, k: nat)
    ensures Rows(next, repeaters, m) + Rows(next, Row(next, repeaters, m), k) == Rows(next, repeaters, m + k)
  {
    if k > 0 {
      RowsResume(next, repeaters, m, k - 1);
      RowResumes(next, repeaters, m, k);
      var from := Row(next, repeaters, m);
      assert Rows(next, from, k) == Rows(next, from, k - 1) + Row(next, repeaters, m + k);
      Assoc(Rows(next, repeaters, m), Rows(next, from, k - 1), Row(next, repeaters, m + k));
    }
  }

  // ---------- The code ----------

  lemma {:induction false} LastOfAppended<T>(a: seq<T>, b: seq<T>)
    requires b != []
    ensures Last(a + b, |b|) == b
  {
  }

  lemma {:induction false} LayoutStep<T>(next: T -> T, req: seq<T>, n: nat, m: nat)
    requires n <= |req|
    ensures Layout(next, req, n, m) + Row(next, req[n..], m + 1) == Layout(next, req, n, m + 1)
  {
    Assoc(Successors(next, req[..n]), Rows(next, req[n..], m), Row(next, req[n..], m + 1));
  }

  lemma {:induction false} LastOfRequest<T>(next: T -> T, req: seq<T>, n: nat)
    requires n < |req|
    ensures Last(req, |req| - n) == Row(next, req[n..], 0)
  {
  }

  /** The loop over the repetitions, which takes its next bindings from the end of the response. */
  method Repeat<T>(next: T -> T, req: seq<T>, N: nat, m: nat) returns (rspVarBinds: seq<T>)
    requires N < |req|
    ensures rspVarBinds == Layout(next, req, N, m)
  {
    var M, R := m, |req| - N;
    rspVarBinds := [];
    if N != 0 {
      rspVarBinds := Successors(next, req[..N]);
    }
    assert rspVarBinds == Layout(next, req, N, 0);
    LastOfRequest(next, req, N);
    var varBinds := Last(req, R);
    ghost var done: nat := 0;
    while M != 0
      invariant 0 <= M && done + M == m
      invariant varBinds == Row(next, req[N..], done)
      invariant rspVarBinds == Layout(next, req, N, done)
      decreases M
    {
      LayoutStep(next, req, N, done);
      var more := Successors(next, varBinds);
      LastOfAppended(rspVarBinds, more);
      rspVarBinds := rspVarBinds + more;
      varBinds := Last(rspVarBinds, R);
      M, done := M - 1, done + 1;
    }
  }

  /** `handle_management_operation`; `None` is the error it raises for an empty response. */
  method Bulk<T(==)>(next: T -> T, nonRepeaters: int, maxRepetitions: int, maxVarbinds: nat, req: seq<T>)
    returns (rsp: Option<seq<T>>)
    ensures var n := NonRepeaters(nonRepeaters, |req|);
      var layout := Layout(next, req, n, Repetitions(maxRepetitions, |req| - n, maxVarbinds));
      rsp == if layout == [] then None else Some(layout)
  {
    var requested := if nonRepeaters < 0 then 0 else nonRepeaters;
    var M := if maxRepetitions < 0 then 0 else maxRepetitions;
    var N := Min(requested, |req|);
    var R: nat := |req| - N;
    var rspVarBinds: seq<T>;
    if R != 0 {
      M := Min(M, maxVarbinds / R);
      rspVarBinds := Repeat(next, req, N, M);
    } else {
      rspVarBinds := Successors(next, req[..N]);
      assert rspVarBinds == Layout(next, req, N, 0);
    }
    rsp := if |rspVarBinds| != 0 then Some(rspVarBinds) else None;
  }

  /** No response is sent exactly when nothing was asked for or nothing fits. */
  lemma {:induction false} EmptyResponse<T>(
      next: T -> T, nonRepeaters: int, maxRepetitions: int, maxVarbinds: nat, req: seq<T>)
    ensures var n := NonRepeaters(nonRepeaters, |req|);
      Layout(next, req, n, Repetitions(maxRepetitions, |req| - n, maxVarbinds)) == []
      <==> req == [] || (nonRepeaters <= 0 && (maxRepetitions <= 0 || maxVarbinds < |req|))
  {
    var n := NonRepeaters(nonRepeaters, |req|);
    var m := Repetitions(maxRepetitions, |req| - n, maxVarbinds);
    LayoutStart(next, req, n, m);
    if n == 0 && req != [] {
      RepetitionsAreMaximal(maxRepetitions, |req|, maxVarbinds, 1);
      if m > 0 {
        assert m * |req| == (m - 1) * |req| + |req|;
      }
    }
  }

  /**
   * When the whole response stays within `max_varbinds`, in terms of the request: the limit is applied to the
   * repetitions alone, so the non-repeaters have to fit in what these leave over.
   */
  predicate StaysWithin(nonRepeaters: int, maxRepetitions: int, maxVarbinds: nat, length: nat) {
    var n := NonRepeaters(nonRepeaters, length);
    if n == length then n <= maxVarbinds
    else if Max0(maxRepetitions) < maxVarbinds / (length - n) then
      n + Max0(maxRepetitions) * (length - n) <= maxVarbinds
    else n <= maxVarbinds % (length - n)
  }

  lemma {:induction false} ResponseStaysWithinLimitIff<T>(
      next: T -> T, nonRepeaters: int, maxRepetitions: int, maxVarbinds: nat, req: seq<T>)
    ensures var n := NonRepeaters(nonRepeaters, |req|);
      |Layout(next, req, n, Repetitions(maxRepetitions, |req| - n, maxVarbinds))| <= maxVarbinds
      <==> StaysWithin(nonRepeaters, maxRepetitions, maxVarbinds, |req|)
  {
    var n := NonRepeaters(nonRepeaters, |req|);
    var r := |req| - n;
    LayoutStart(next, req, n, Repetitions(maxRepetitions, r, maxVarbinds));
    if r > 0 {
      var q := maxVarbinds / r;
      assert maxVarbinds == r * q + maxVarbinds % r;
      assert q * r == r * q;
    }
  }

  /** Three bindings, two of them non-repeaters, with a limit of two: the response has four. */
  lemma {:induction false} LimitIsExceeded<T>(next: T -> T, a: T, b: T, c: T)
    ensures var req := [a, b, c];
      |Layout(next, req, NonRepeaters(2, 3), Repetitions(5, 1, 2))| == 4 && !StaysWithin(2, 5, 2, 3)
  {
    LayoutStart(next, [a, b, c], 2, 2);
  }
}
