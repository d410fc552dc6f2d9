/**
 What the cashback service adds up to over runs, in the program's own settings: what a purchase is
 credited, what no window of time can exceed, and what a correction leaves.
 */
module CashbackRuns {
  import opened Wrappers
  import opened Clock
  import opened Receipts
  import opened Ledger
  import opened LedgerBalances
  import opened LedgerCaps
  import opened LedgerSteps
  import opened Accrual
  import opened CashbackService

  /** The length of the cap window in days: the expiry, or thirty days without one. */
  function WindowDays(expiryDays: Option<int>): int {
    if expiryDays.Some? then expiryDays.value else 30
  }

  /** What the account earned in the window that ends now. */
  function EarnedLately(log: seq<Transaction>, a: Account, p: Program, now: int): int {
    Total(log, EarnsBetween(a, now - WindowDays(p.expiryDays) * DAY, now))
  }

  /** An amount within the rate, the cap per transaction and the cap per period. */
  predicate Within(n: int, p: Program, purchase: real, earned: int) {
    && n as real <= purchase * p.rate * 100.0
    && (p.maxPerTx.Some? ==> n <= p.maxPerTx.value)
    && (p.maxPerPeriod.Some? ==> (earned + n) as real <= p.maxPerPeriod.value)
  }

  /**
   After any run a purchase that is not below the minimum is credited the largest whole amount
   within the rate and both caps. It is refused exactly when that amount is nothing, or the
   earn's id or its receipt is taken.
   */
  lemma PurchaseIsCreditedLargest(
    schema: Schema, run: seq<Event>, p: Program, a: Account, purchase: real, fp: Fingerprint, id: Id, serviceNow: int,
    now: int)
    returns (n: int)
    requires IsRun(schema, run) && ClockForward(run) && forall e <- run :: e.now <= now
    requires Credit(p, purchase).Ok?
    ensures var s := State(schema, run);
      var (op, earned) := (CashbackOp(p, a, purchase, fp, id, serviceNow), EarnedLately(s.log, a, p, now));
      var r := Step(schema, s, op, now);
      if !Within(1, p, purchase, earned) then r == Err(PeriodCapExhausted)
      else if HasId(s.log, id) || ReceiptTaken(s.log, a.program, fp.hash) then r == Err(DuplicateReceipt)
      else
        && r.Ok? && Earned(s, r.value, op, n, now)
        && n >= 1 && Within(n, p, purchase, earned) && !Within(n + 1, p, purchase, earned)
  {
    var (s, op) := (State(schema, run), CashbackOp(p, a, purchase, fp, id, serviceNow));
    var earned := EarnedLately(s.log, a, p, now);
    n := op.amount;
    CreditIsLargestWhole(p, purchase);
    if op.cap.Some? {
      RoomSeen(schema, run, op, now);
      var c := Clamp(s.log, a, op.amount, op.cap, now);
      n := if c.Ok? then c.value else n;
    }
    CreditedIsWithin(p, purchase, earned, n);
    EarnOutcome(schema, s, op, now);
  }

  lemma CreditedIsWithin(p: Program, purchase: real, earned: int, n: int)
    requires Credit(p, purchase).Ok? && n <= Credit(p, purchase).value
    ensures var (amount, fits) := (Credit(p, purchase).value,
                                   p.maxPerPeriod.Some? ==> (earned + n) as real <= p.maxPerPeriod.value);
      && (Within(n, p, purchase, earned) <==> fits)
      && (Within(1, p, purchase, earned) <==>
          p.maxPerPeriod.Some? ==> (earned + 1) as real <= p.maxPerPeriod.value)
      && (n == amount || (p.maxPerPeriod.Some? && p.maxPerPeriod.value < (earned + n + 1) as real) ==>
          !Within(n + 1, p, purchase, earned))
  {
    CreditIsLargestWhole(p, purchase);
    var exact := purchase * p.rate * 100.0;
    var amount := Credit(p, purchase).value;
    assert n as real <= amount as real <= exact;
  }

  // ---------- the cap per period ----------

  /** An earn the service made for a purchase at a program with these settings. */
  ghost predicate MadeFor(op: Op, p: Program, maxPerPeriod: Option<real>, expiryDays: Option<int>) {
    && p.maxPerPeriod == maxPerPeriod && p.expiryDays == expiryDays
    && op.AddTx?
    && exists purchase, serviceNow ::
      Credit(p, purchase).Ok? && op == CashbackOp(p, op.account, purchase, op.fingerprint, op.id, serviceNow)
  }

  ghost predicate MadeByService(op: Op, maxPerPeriod: Option<real>, expiryDays: Option<int>) {
    exists p :: MadeFor(op, p, maxPerPeriod, expiryDays)
  }

  /** Every earn on the account was made by the service, under this cap and expiry. */
  ghost predicate ServiceEarns(run: seq<Event>, a: Account, maxPerPeriod: Option<real>, expiryDays: Option<int>) {
    forall e <- run :: e.op.AddTx? && e.op.account == a ==> MadeByService(e.op, maxPerPeriod, expiryDays)
  }

  /**
   Under a program's cap per period no closed window of its expiry, or of thirty days without one,
   holds earns of more than the cap, wherever it ends and whatever else happens in the run.
   */
  lemma NoPeriodExceedsProgramCap(
    schema: Schema, run: seq<Event>, log: seq<Transaction>, a: Account, limit: real, expiryDays: Option<int>, end: int)
    requires IsRun(schema, run) && ClockForward(run) && limit >= 0.0 && log == State(schema, run).log
    requires ServiceEarns(run, a, Some(limit), expiryDays)
    ensures Total(log, EarnsBetween(a, end - WindowDays(expiryDays) * DAY, end)) as real <= limit
  {
    WindowUnderCap(schema, run, a, limit, expiryDays, end);
    WindowWithin(log, a, limit, WindowDays(expiryDays), end);
  }

  lemma WindowWithin(log: seq<Transaction>, a: Account, limit: real, days: int, end: int)
    requires InWindow(log, a, Cap(limit, days), end) as real <= limit
    ensures Total(log, EarnsBetween(a, end - days * DAY, end)) as real <= limit
  {}

  lemma WindowUnderCap(
    schema: Schema, run: seq<Event>, a: Account, limit: real, expiryDays: Option<int>, end: int)
    requires IsRun(schema, run) && ClockForward(run) && limit >= 0.0
    requires ServiceEarns(run, a, Some(limit), expiryDays)
    ensures InWindow(State(schema, run).log, a, Cap(limit, WindowDays(expiryDays)), end) as real <= limit
  {
    WindowsUnderCap(schema, run, a, limit, expiryDays);
  }

  lemma WindowsUnderCap(schema: Schema, run: seq<Event>, a: Account, limit: real, expiryDays: Option<int>)
    requires IsRun(schema, run) && ClockForward(run) && limit >= 0.0
    requires ServiceEarns(run, a, Some(limit), expiryDays)
    ensures WindowsWithin(State(schema, run).log, a, Cap(limit, WindowDays(expiryDays)))
  {
    var cap := Cap(limit, WindowDays(expiryDays));
    forall e <- run | e.op.AddTx? && e.op.account == a ensures e.op.cap == Some(cap) {
      assert MadeByService(e.op, Some(limit), expiryDays);
      var p :| MadeFor(e.op, p, Some(limit), expiryDays);
      CarriesCap(e.op, p, limit, expiryDays);
    }
    RunKeepsWindows(schema, run, a, cap);
  }

  lemma CarriesCap(op: Op, p: Program, limit: real, expiryDays: Option<int>)
    requires MadeFor(op, p, Some(limit), expiryDays)
    ensures op.cap == Some(Cap(limit, WindowDays(expiryDays)))
  {}

  // ---------- corrections ----------

  lemma {:induction false} LogIsKept(schema: Schema, run: seq<Event>, k: nat)
    requires IsRun(schema, run) && k <= |run| && IsRun(schema, run[..k])
    ensures State(schema, run[..k]).log <= State(schema, run).log
  {
    if k == |run| {
      assert run[..k] == run;
    } else {
      var before := run[..|run| - 1];
      assert before[..k] == run[..k];
      LogIsKept(schema, before, k);
      StepGrows(schema, State(schema, before), run[|run| - 1]);
    }
  }

  /** The row of an earn made at `k` is in the log from then on. */
  lemma EarnIsLogged(schema: Schema, run: seq<Event>, k: nat, id: Id) returns (t: Transaction)
    requires IsRun(schema, run) && EarnedAt(schema, run, k, id)
    ensures t in State(schema, run).log && t.id == id && t.account == run[k].op.account
  {
    var (s, e) := (State(schema, run[..k]), run[k]);
    StepPosts(schema, s, e.op, e.now);
    var upTo := run[..k + 1];
    assert upTo[..|upTo| - 1] == run[..k];
    LogIsKept(schema, run, k + 1);
    var log := State(schema, upTo).log;
    t := log[|log| - 1];
    assert State(schema, run).log[|log| - 1] == t;
  }

  /** Two earns of a run have different identifiers. */
  lemma EarnIdsDiffer(schema: Schema, run: seq<Event>, k: nat, l: nat, id: Id)
    requires IsRun(schema, run) && EarnedAt(schema, run, k, id) && EarnedAt(schema, run, l, id)
    ensures k == l
  {
    if k < l {
      EarnIdTaken(schema, run, k, l, id);
    } else if l < k {
      EarnIdTaken(schema, run, l, k, id);
    }
  }

  lemma EarnIdTaken(schema: Schema, run: seq<Event>, k: nat, l: nat, id: Id)
    requires IsRun(schema, run) && EarnedAt(schema, run, k, id) && k < l < |run| && IsRun(schema, run[..l])
    requires run[l].op.AddTx? && run[l].op.id == id
    ensures Step(schema, State(schema, run[..l]), run[l].op, run[l].now).Err?
  {
    assert run[..l][..k] == run[..k] && EarnedAt(schema, run[..l], k, id);
    var t := EarnIsLogged(schema, run[..l], k, id);
  }

  /** A logged account has its balance row. */
  lemma LoggedHasBalance(schema: Schema, run: seq<Event>, t: Transaction)
    requires IsRun(schema, run) && t in State(schema, run).log
    ensures t.account in State(schema, run).balances
  {
    RunSound(schema, run);
    assert BalancedFor(State(schema, run), t.account);
    LoggedHasAmounts(State(schema, run).log, t);
  }

  /**
   For two hours after the service credited a purchase, and no longer, a correction of that earn
   on its account succeeds, its own id being fresh.
   */
  lemma CorrectableForTwoHours(
    schema: Schema, run: seq<Event>, k: nat, p: Program, purchase: real, serviceNow: int, op: Op, now: int)
    requires IsRun(schema, run) && op.AdjustTx? && EarnedAt(schema, run, k, op.original)
    requires var e := run[k].op;
      Credit(p, purchase).Ok? && e == CashbackOp(p, op.account, purchase, e.fingerprint, e.id, serviceNow)
    ensures Step(schema, State(schema, run), op, now).Ok? <==>
      now < serviceNow + 7200 * SECOND && !HasId(State(schema, run).log, op.id)
  {
    CorrectionExactly(schema, run, op, now);
    var t := EarnIsLogged(schema, run, k, op.original);
    LoggedHasBalance(schema, run, t);
    if StillOpen(schema, run, op.original, now) {
      var l :| EarnedAt(schema, run, l, op.original) && now < run[l].op.correctableUntil;
      EarnIdsDiffer(schema, run, k, l, op.original);
    }
  }

  /**
   A correction made right after an earn puts the new purchase in its place: the balance is what
   it was before the earn and the largest whole amount within the rate of the new purchase, or
   nothing. The caps, which the earn was held to, do not hold it back.
   */
  lemma CorrectionReplacesEarn(
    schema: Schema, run: seq<Event>, op: Op, now: int, p: Program, purchase: real, serviceNow: int, newPurchase: real,
    id: Id, now': int)
    returns (n: int)
    requires IsRun(schema, run) && Credit(p, purchase).Ok?
    requires op.AddTx? && op == CashbackOp(p, op.account, purchase, op.fingerprint, op.id, serviceNow)
    requires Step(schema, State(schema, run), op, now).Ok?
    ensures var (s, s1) := (State(schema, run), After(schema, State(schema, run), op, now));
      && |s1.log| == |s.log| + 1
      && var r := Step(schema, s1, Correction(p, s1.log[|s.log|], newPurchase, id), now');
        r.Ok? ==>
          var balance := Balance(s, op.account) + n;
          Balance(r.value, op.account) == if balance < 0 then 0 else balance
    ensures n as real <= newPurchase * p.rate * 100.0 < (n + 1) as real
  {
    n := CashbackCents(newPurchase, p.rate);
    BalanceIsLargestSuffixSum(schema, run, op.account);
    CreditIsLargestWhole(p, purchase);
    Replaced(schema, State(schema, run), op, now, p, newPurchase, id, now');
  }

  lemma Replaced(
    schema: Schema, s: Tables, op: Op, now: int, p: Program, newPurchase: real, id: Id, now': int)
    requires op.AddTx? && op.amount > 0 && Balance(s, op.account) >= 0 && Step(schema, s, op, now).Ok?
    ensures var s1 := After(schema, s, op, now);
      && |s1.log| == |s.log| + 1
      && var r := Step(schema, s1, Correction(p, s1.log[|s.log|], newPurchase, id), now');
        r.Ok? ==> Balance(r.value, op.account) == Floor0(Balance(s, op.account) + CashbackCents(newPurchase, p.rate))
  {
    var s1 := After(schema, s, op, now);
    StepPosts(schema, s, op, now);
    var (t, c) := (s1.log[|s.log|], Correction(p, s1.log[|s.log|], newPurchase, id));
    assert Balance(s1, op.account) == Balance(s, op.account) + t.amount;
    if Step(schema, s1, c, now').Ok? {
      StepPosts(schema, s1, c, now');
    }
  }
}
