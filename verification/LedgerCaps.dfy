/** The period cap over whole runs: what is credited, and what no window can exceed. */
module LedgerCaps {
  import opened Wrappers
  import opened Clock
  import opened Ledger

  /** Earns of an account inside the closed window [lo, hi]. */
  function EarnsBetween(a: Account, lo: int, hi: int): Transaction -> bool {
    (t: Transaction) => t.account == a && t.kind == Earn && t.amount > 0 && lo <= t.createdAt <= hi
  }

  /** What the account earned in the closed window of the cap's length that ends at `end`. */
  function InWindow(log: seq<Transaction>, a: Account, cap: Cap, end: int): int {
    Total(log, EarnsBetween(a, end - cap.windowDays * DAY, end))
  }

  lemma {:induction false} TotalMonotone(log: seq<Transaction>, few: Transaction -> bool, many: Transaction -> bool)
    requires forall t :: few(t) ==> many(t)
    requires forall t :: many(t) ==> t.amount > 0
    ensures 0 <= Total(log, few) <= Total(log, many)
  {
    if log != [] {
      TotalMonotone(log[..|log| - 1], few, many);
    }
  }

  lemma {:induction false} TotalAgree(log: seq<Transaction>, p: Transaction -> bool, q: Transaction -> bool)
    requires forall t <- log :: p(t) == q(t)
    ensures Total(log, p) == Total(log, q)
  {
    if log != [] {
      assert log[|log| - 1] in log;
      TotalAgree(log[..|log| - 1], p, q);
    }
  }

  lemma TotalSnoc(log: seq<Transaction>, t: Transaction, p: Transaction -> bool)
    ensures Total(log + [t], p) == Total(log, p) + if p(t) then t.amount else 0
  {
    assert (log + [t])[..|log + [t]| - 1] == log;
  }

  /**
   What a capped request is credited: the largest whole amount that is within the request and
   within the room left, and a refusal exactly when that amount is not positive.
   */
  lemma ClampIsLargestFit(log: seq<Transaction>, a: Account, amount: int, cap: Cap, now: int)
    ensures var room := cap.limit - Total(log, EarnsSince(a, now - cap.windowDays * DAY)) as real;
      var r := Clamp(log, a, amount, Some(cap), now);
      && (r == Err(PeriodCapExhausted) <==> amount <= 0 || room < 1.0)
      && (r.Ok? ==> 0 < r.value <= amount && r.value as real <= room)
      && (r.Ok? ==> r.value == amount || room < (r.value + 1) as real)
  {}

  /** Every earn on the account is made under the same cap and window. */
  ghost predicate UsesCap(run: seq<Event>, a: Account, cap: Cap) {
    forall e <- run :: e.op.AddTx? && e.op.account == a ==> e.op.cap == Some(cap)
  }

  ghost predicate LoggedBy(log: seq<Transaction>, now: int) {
    forall t <- log :: t.createdAt <= now
  }

  ghost predicate WindowsWithin(log: seq<Transaction>, a: Account, cap: Cap) {
    forall end :: InWindow(log, a, cap, end) as real <= cap.limit
  }

  /** A credit that fits the window ending now fits every window. */
  lemma CreditKeepsWindows(log: seq<Transaction>, t: Transaction, a: Account, cap: Cap)
    requires LoggedBy(log, t.createdAt) && WindowsWithin(log, a, cap)
    requires var since := EarnsSince(a, t.createdAt - cap.windowDays * DAY);
      since(t) ==> (Total(log, since) + t.amount) as real <= cap.limit
    ensures WindowsWithin(log + [t], a, cap)
  {
    forall end ensures InWindow(log + [t], a, cap, end) as real <= cap.limit {
      assert InWindow(log, a, cap, end) as real <= cap.limit;
      var window := EarnsBetween(a, end - cap.windowDays * DAY, end);
      TotalSnoc(log, t, window);
      if window(t) {
        TotalMonotone(log, window, EarnsSince(a, t.createdAt - cap.windowDays * DAY));
      }
    }
  }

  /** Rows of other kinds do not count. */
  lemma OtherKeepsWindows(log: seq<Transaction>, t: Transaction, a: Account, cap: Cap)
    requires WindowsWithin(log, a, cap) && !(t.account == a && t.kind == Earn)
    ensures WindowsWithin(log + [t], a, cap)
  {
    forall end ensures InWindow(log + [t], a, cap, end) as real <= cap.limit {
      assert InWindow(log, a, cap, end) as real <= cap.limit;
      TotalSnoc(log, t, EarnsBetween(a, end - cap.windowDays * DAY, end));
    }
  }

  lemma {:induction false} ExpireKeepsWindows(
    schema: Schema, s: Tables, b: Account, rows: seq<Transaction>, ids: seq<Id>, now: int, a: Account, cap: Cap)
    requires |rows| == |ids| && LoggedBy(s.log, now) && WindowsWithin(s.log, a, cap)
    ensures var r := ExpireAll(schema, s, b, rows, ids, now);
      r.Ok? ==> LoggedBy(r.value.log, now) && WindowsWithin(r.value.log, a, cap)
  {
    if rows != [] {
      var n := |rows| - 1;
      ExpireKeepsWindows(schema, s, b, rows[..n], ids[..n], now, a, cap);
      var r := ExpireAll(schema, s, b, rows[..n], ids[..n], now);
      if r.Ok? {
        var q := ExpireOne(schema, r.value, b, rows[n], ids[n], now);
        if q.Ok? {
          OtherKeepsWindows(r.value.log, q.value.log[|r.value.log|], a, cap);
        }
      }
    }
  }

  lemma StepKeepsWindows(schema: Schema, s: Tables, e: Event, a: Account, cap: Cap)
    requires Enabled(s, e) && LoggedBy(s.log, e.now) && WindowsWithin(s.log, a, cap)
    requires e.op.AddTx? && e.op.account == a ==> e.op.cap == Some(cap)
    ensures var s' := After(schema, s, e.op, e.now);
      LoggedBy(s'.log, e.now) && WindowsWithin(s'.log, a, cap)
  {
    var r := Step(schema, s, e.op, e.now);
    if r.Ok? && e.op.ExpireTx? {
      ExpireKeepsWindows(schema, s, e.op.account, e.op.rows, e.op.ids, e.now, a, cap);
    } else if r.Ok? {
      StepPosts(schema, s, e.op, e.now);
      var t := NewRow(s, e.op, e.now);
      if t.Some? {
        var row := t.value.(balanceAfter := Floor0(Balance(s, t.value.account) + t.value.amount));
        if e.op.AddTx? && e.op.account == a {
          ClampIsLargestFit(s.log, a, e.op.amount, cap, e.now);
          CreditKeepsWindows(s.log, row, a, cap);
        } else {
          OtherKeepsWindows(s.log, row, a, cap);
        }
      }
    }
  }

  lemma {:induction false} RunKeepsWindows(schema: Schema, run: seq<Event>, a: Account, cap: Cap)
    requires IsRun(schema, run) && ClockForward(run) && UsesCap(run, a, cap) && cap.limit >= 0.0
    ensures WindowsWithin(State(schema, run).log, a, cap)
    ensures run != [] ==> LoggedBy(State(schema, run).log, run[|run| - 1].now)
    ensures run == [] ==> State(schema, run).log == []
  {
    if run != [] {
      var (before, e) := (run[..|run| - 1], run[|run| - 1]);
      assert e in run;
      RunKeepsWindows(schema, before, a, cap);
      StepKeepsWindows(schema, State(schema, before), e, a, cap);
    }
  }

  /**
   Although each earn checks only the window that ends at it, no closed window of the whole
   run, wherever it ends, holds earns of more than the cap.
   */
  lemma NoWindowExceedsCap(schema: Schema, run: seq<Event>, a: Account, cap: Cap, end: int)
    requires IsRun(schema, run) && ClockForward(run) && UsesCap(run, a, cap) && cap.limit >= 0.0
    ensures InWindow(State(schema, run).log, a, cap, end) as real <= cap.limit
  {
    RunKeepsWindows(schema, run, a, cap);
  }
}
