/**
 When each operation of the ledger succeeds and what it then leaves, in the rows' own fields and
 for the tables any run reaches.
 */
module LedgerSteps {
  import opened Wrappers
  import opened Clock
  import opened Receipts
  import opened Ledger
  import opened LedgerBalances
  import opened LedgerCaps
  import opened LedgerExpiry
  import opened LedgerStock

  // ---------- earns ----------

  lemma {:induction false} LoggedByThen(schema: Schema, run: seq<Event>, now: int)
    requires IsRun(schema, run) && ClockForward(run) && forall e <- run :: e.now <= now
    ensures LoggedBy(State(schema, run).log, now)
  {
    if run != [] {
      var (before, e) := (run[..|run| - 1], run[|run| - 1]);
      assert e in run && forall x <- before :: x in run;
      LoggedByThen(schema, before, now);
      StepLoggedBy(schema, State(schema, before), e, now);
    }
  }

  lemma StepLoggedBy(schema: Schema, s: Tables, e: Event, now: int)
    requires Enabled(s, e) && LoggedBy(s.log, now) && e.now <= now
    ensures LoggedBy(After(schema, s, e.op, e.now).log, now)
  {
    var r := Step(schema, s, e.op, e.now);
    if r.Ok? && e.op.ExpireTx? {
      LoopLoggedBy(schema, s, e.op.account, e.op.rows, e.op.ids, e.now, now);
    } else if r.Ok? {
      StepPosts(schema, s, e.op, e.now);
    }
  }

  lemma {:induction false} LoopLoggedBy(
    schema: Schema, s: Tables, a: Account, rows: seq<Transaction>, ids: seq<Id>, now: int, then': int)
    requires |rows| == |ids| && LoggedBy(s.log, then') && now <= then'
    ensures var r := ExpireAll(schema, s, a, rows, ids, now); r.Ok? ==> LoggedBy(r.value.log, then')
  {
    if rows != [] {
      LoopLoggedBy(schema, s, a, rows[..|rows| - 1], ids[..|ids| - 1], now, then');
    }
  }

  /** The receipt of an earn is already in its program's log. */
  predicate ReceiptTaken(log: seq<Transaction>, program: Id, hash: Option<Digest>) {
    hash.Some? && exists x <- log :: x.account.program == program && x.fingerprint.hash == hash
  }

  /** What a successful earn leaves. */
  ghost predicate Earned(s: Tables, s': Tables, op: Op, credited: int, now: int)
    requires op.AddTx?
  {
    var after := if Balance(s, op.account) + credited < 0 then 0 else Balance(s, op.account) + credited;
    && s'.balances == s.balances[op.account := after]
    && s'.log == s.log + [Transaction(op.id, op.account, Earn, credited, after, None, Some(op.correctableUntil),
                                      op.fingerprint, now)]
    && s'.rewards == s.rewards && s'.redemptions == s.redemptions
  }

  /**
   An earn under a cap sees the room left in the window that ends now. It is refused for the cap
   exactly when it asks for nothing or less than a cent is left, then for a duplicate exactly when
   its id or its receipt is taken; otherwise it is credited the largest whole amount within both.
   */
  lemma CappedEarnExactly(schema: Schema, run: seq<Event>, op: Op, now: int)
    requires IsRun(schema, run) && ClockForward(run) && forall e <- run :: e.now <= now
    requires op.AddTx? && op.cap.Some?
    ensures var s := State(schema, run);
      var (r, room) := (Step(schema, s, op, now),
                        op.cap.value.limit - InWindow(s.log, op.account, op.cap.value, now) as real);
      if op.amount <= 0 || room < 1.0 then r == Err(PeriodCapExhausted)
      else if HasId(s.log, op.id) || ReceiptTaken(s.log, op.account.program, op.fingerprint.hash) then
        r == Err(DuplicateReceipt)
      else
        r.Ok? && exists credited: int ::
          && 0 < credited <= op.amount && credited as real <= room
          && (credited == op.amount || room < (credited + 1) as real)
          && Earned(s, r.value, op, credited, now)
  {
    RoomSeen(schema, run, op, now);
    EarnOutcome(schema, State(schema, run), op, now);
  }

  lemma RoomSeen(schema: Schema, run: seq<Event>, op: Op, now: int)
    requires IsRun(schema, run) && ClockForward(run) && forall e <- run :: e.now <= now
    requires op.AddTx? && op.cap.Some?
    ensures var log := State(schema, run).log;
      var (c, room) := (Clamp(log, op.account, op.amount, op.cap, now),
                        op.cap.value.limit - InWindow(log, op.account, op.cap.value, now) as real);
      && (c == Err(PeriodCapExhausted) <==> op.amount <= 0 || room < 1.0)
      && (c.Err? ==> c == Err(PeriodCapExhausted))
      && (c.Ok? ==> 0 < c.value <= op.amount && c.value as real <= room
                    && (c.value == op.amount || room < (c.value + 1) as real))
  {
    var (log, cap) := (State(schema, run).log, op.cap.value);
    LoggedByThen(schema, run, now);
    TotalAgree(log, EarnsBetween(op.account, now - cap.windowDays * DAY, now),
               EarnsSince(op.account, now - cap.windowDays * DAY));
    ClampIsLargestFit(log, op.account, op.amount, cap, now);
  }

  /** What an earn is credited, unless its id or its receipt is taken. */
  lemma EarnOutcome(schema: Schema, s: Tables, op: Op, now: int)
    requires op.AddTx?
    ensures var (c, r) := (Clamp(s.log, op.account, op.amount, op.cap, now), Step(schema, s, op, now));
      if c.Err? then r == Err(c.error)
      else if HasId(s.log, op.id) || ReceiptTaken(s.log, op.account.program, op.fingerprint.hash) then
        r == Err(DuplicateReceipt)
      else r.Ok? && Earned(s, r.value, op, c.value, now)
  {}

  // ---------- burns ----------

  /** What a successful burn leaves. */
  ghost predicate Burned(s: Tables, s': Tables, op: Op, now: int)
    requires op.BurnTx? && op.account in s.balances && op.rewardId in s.rewards
  {
    var (after, w) := (s.balances[op.account] - op.cost, s.rewards[op.rewardId]);
    && s'.balances == s.balances[op.account := after]
    && s'.log == s.log + [Transaction(op.id, op.account, Burn, -op.cost, after, None, None, NO_FINGERPRINT, now)]
    && s'.rewards == s.rewards[op.rewardId := Reward(w.cost, w.stockTotal, w.redeemedCount + 1)]
    && s'.redemptions == s.redemptions +
       [Redemption(op.redemptionId, op.account, op.rewardId, op.code, Pending, op.cost, op.expiresAt)]
  }

  /**
   After any run a burn succeeds exactly when its reward exists with unlimited stock or more than
   its redemptions, the balance row covers the cost, and its three keys are free; and the first of
   these that fails names the error.
   */
  lemma BurnExactly(schema: Schema, run: seq<Event>, op: Op, now: int)
    requires IsRun(schema, run) && op.BurnTx?
    ensures var s := State(schema, run);
      var r := Step(schema, s, op, now);
      if !(op.rewardId in s.rewards && (s.rewards[op.rewardId].stockTotal.None?
            || Redeemed(s.redemptions, op.rewardId) < s.rewards[op.rewardId].stockTotal.value)) then
        r == Err(OutOfStock)
      else if !(op.account in s.balances && op.cost <= s.balances[op.account]) then
        r == Err(InsufficientBalance)
      else if (exists t <- s.log :: t.id == op.id)
           || (exists x <- s.redemptions :: x.id == op.redemptionId || x.code == op.code) then
        r == Err(UniqueViolation)
      else r.Ok? && Burned(s, r.value, op, now)
  {
    RunKeepsStock(schema, run);
    var s := State(schema, run);
    if op.rewardId in s.rewards && Step(schema, s, op, now).Ok? {
      BurnLeaves(schema, s, op, now);
    }
  }

  lemma BurnLeaves(schema: Schema, s: Tables, op: Op, now: int)
    requires op.BurnTx? && Step(schema, s, op, now).Ok?
    ensures op.account in s.balances && op.cost <= s.balances[op.account] && op.rewardId in s.rewards
    ensures Burned(s, Step(schema, s, op, now).value, op, now)
  {}

  // ---------- corrections ----------

  /** What a successful correction leaves. */
  ghost predicate Corrected(s: Tables, s': Tables, op: Op, now: int)
    requires op.AdjustTx? && op.account in s.balances
  {
    var sum := s.balances[op.account] + op.amount;
    var after := if sum < 0 then 0 else sum;
    && s'.balances == s.balances[op.account := after]
    && s'.log == s.log + [Transaction(op.id, op.account, Adjustment, op.amount, after, None, None, NO_FINGERPRINT, now)]
    && s'.rewards == s.rewards && s'.redemptions == s.redemptions
  }

  /** The operation at `k` credited the earn with this identifier. */
  ghost predicate EarnedAt(schema: Schema, run: seq<Event>, k: int, id: Id) {
    && 0 <= k < |run| && IsRun(schema, run[..k])
    && run[k].op.AddTx? && run[k].op.id == id
    && Step(schema, State(schema, run[..k]), run[k].op, run[k].now).Ok?
  }

  /** Some earn of the run has this identifier and can still be corrected. */
  ghost predicate StillOpen(schema: Schema, run: seq<Event>, id: Id, now: int) {
    exists k :: EarnedAt(schema, run, k, id) && now < run[k].op.correctableUntil
  }

  /**
   After any run a correction succeeds exactly when an earn of the run with that identifier can
   still be corrected, the balance row exists and the correction's own id is free.
   */
  lemma CorrectionExactly(schema: Schema, run: seq<Event>, op: Op, now: int)
    requires IsRun(schema, run) && op.AdjustTx?
    ensures var s := State(schema, run);
      var r := Step(schema, s, op, now);
      if !StillOpen(schema, run, op.original, now) then r == Err(NotCorrectable)
      else if op.account !in s.balances then r == Err(NotFound)
      else if exists t <- s.log :: t.id == op.id then r == Err(UniqueViolation)
      else r.Ok? && Corrected(s, r.value, op, now)
  {
    CorrectableOrigin(schema, run, op.original, now);
  }

  lemma {:induction false} CorrectableOrigin(schema: Schema, run: seq<Event>, id: Id, now: int)
    requires IsRun(schema, run)
    ensures Correctable(State(schema, run).log, id, now) <==> StillOpen(schema, run, id, now)
  {
    if run != [] {
      var before := run[..|run| - 1];
      CorrectableOrigin(schema, before, id, now);
      StepCorrectable(schema, State(schema, before), run[|run| - 1], id, now);
      StillOpenAfter(schema, run, id, now);
    }
  }

  lemma StillOpenAfter(schema: Schema, run: seq<Event>, id: Id, now: int)
    requires IsRun(schema, run) && run != []
    ensures var (before, e) := (run[..|run| - 1], run[|run| - 1]);
      StillOpen(schema, run, id, now) <==>
        StillOpen(schema, before, id, now)
        || (StepEarns(schema, State(schema, before), e, id) && now < e.op.correctableUntil)
  {
    var (before, n) := (run[..|run| - 1], |run| - 1);
    EarnedAtAfter(schema, run, n, id);
    if k :| EarnedAt(schema, run, k, id) && now < run[k].op.correctableUntil {
      EarnedAtAfter(schema, run, k, id);
    }
    if k :| EarnedAt(schema, before, k, id) && now < before[k].op.correctableUntil {
      EarnedAtAfter(schema, run, k, id);
    }
  }

  lemma EarnedAtAfter(schema: Schema, run: seq<Event>, k: int, id: Id)
    requires IsRun(schema, run) && run != []
    ensures var (before, n) := (run[..|run| - 1], |run| - 1);
      EarnedAt(schema, run, k, id) <==>
        EarnedAt(schema, before, k, id) || (k == n && StepEarns(schema, State(schema, before), run[n], id))
  {
    if 0 <= k < |run| {
      assert run[..k] == run[..|run| - 1][..k];
    }
  }

  ghost predicate StepEarns(schema: Schema, s: Tables, e: Event, id: Id) {
    e.op.AddTx? && e.op.id == id && Step(schema, s, e.op, e.now).Ok?
  }

  lemma StepCorrectable(schema: Schema, s: Tables, e: Event, id: Id, now: int)
    requires Enabled(s, e)
    ensures Correctable(After(schema, s, e.op, e.now).log, id, now) <==>
      Correctable(s.log, id, now) || (StepEarns(schema, s, e, id) && now < e.op.correctableUntil)
  {
    var r := Step(schema, s, e.op, e.now);
    if r.Ok? && e.op.ExpireTx? {
      ExpiryOutcome(schema, s, e);
      MarkersUncorrectable(s.log, r.value.log, e.op.account, e.op.rows, e.op.ids, id, now);
    } else if r.Ok? {
      StepPosts(schema, s, e.op, e.now);
      if NewRow(s, e.op, e.now).Some? {
        CorrectableSnoc(s.log, r.value.log[|s.log|], id, now);
      }
    }
  }

  lemma CorrectableSnoc(log: seq<Transaction>, t: Transaction, id: Id, now: int)
    ensures Correctable(log + [t], id, now) <==>
      Correctable(log, id, now) || (t.id == id && t.correctableUntil.Some? && t.correctableUntil.value > now)
  {
    assert forall x :: x in log + [t] <==> x in log || x == t;
  }

  lemma MarkersUncorrectable(log: seq<Transaction>, log': seq<Transaction>, a: Account, rows: seq<Transaction>,
      ids: seq<Id>, id: Id, now: int)
    requires AppendsMarkers(log, log', a, rows, ids)
    ensures Correctable(log', id, now) <==> Correctable(log, id, now)
  {
    assert forall t <- log :: t in log';
    forall t <- log' ensures t in log || t.correctableUntil == None {
      var k :| 0 <= k < |log'| && log'[k] == t;
      if k < |log| {
        assert log[k] in log;
      } else {
        assert IsMarker(log'[|log| + (k - |log|)], a, rows[k - |log|], ids[k - |log|]);
      }
    }
  }

  // ---------- expiries ----------

  /** An earn of the account that counts, older than the cutoff, which no expiration row names. */
  predicate IsOldAndUnexpired(log: seq<Transaction>, t: Transaction, a: Account, cutoff: int) {
    && t.account == a && t.kind == Earn && t.amount > 0 && t.createdAt < cutoff
    && !exists x <- log :: x.kind == Expiration && x.expires == Some(t.id)
  }

  /** The rows an expiry of `days` handles are exactly those, whatever their order. */
  lemma HandledRows(s: Tables, e: Event, t: Transaction)
    requires e.op.ExpireTx? && Enabled(s, e)
    ensures t in e.op.rows <==>
      t in s.log && IsOldAndUnexpired(s.log, t, e.op.account, e.now - e.op.days * DAY)
  {
    EnabledRows(s, e);
  }

  /** An expiration row and the earn it takes back in full. */
  predicate Expires(x: Transaction, t: Transaction) {
    x.kind == Expiration && x.expires == Some(t.id) && x.account == t.account && x.amount == -t.amount
  }

  /**
   An expiry of `days` logs one row for each earn of the account, and no other, that was older than
   that many days and not expired before; and afterwards every such earn is expired.
   */
  lemma ExpiryExactly(schema: Schema, s: Tables, e: Event, s': Tables)
    requires e.op.ExpireTx? && Enabled(s, e) && Step(schema, s, e.op, e.now) == Ok(s')
    ensures s.log <= s'.log
    ensures forall x <- s'.log[|s.log|..] ::
      exists t <- s.log :: Expires(x, t) && IsOldAndUnexpired(s.log, t, e.op.account, e.now - e.op.days * DAY)
    ensures forall t <- s.log ::
      t.account == e.op.account && t.kind == Earn && t.amount > 0 && t.createdAt < e.now - e.op.days * DAY ==>
        exists x <- s'.log :: x.kind == Expiration && x.expires == Some(t.id)
  {
    ExpiryOutcome(schema, s, e);
    forall x <- s'.log[|s.log|..]
      ensures exists t <- s.log :: Expires(x, t) && IsOldAndUnexpired(s.log, t, e.op.account, e.now - e.op.days * DAY)
    {
      var i :| 0 <= i < |s'.log| - |s.log| && s'.log[|s.log|..][i] == x;
      var t := NewRowExpires(schema, s, e, s', |s.log| + i);
    }
    forall t <- s.log |
      t.account == e.op.account && t.kind == Earn && t.amount > 0 && t.createdAt < e.now - e.op.days * DAY
      ensures exists x <- s'.log :: x.kind == Expiration && x.expires == Some(t.id)
    {
      OldIsExpired(schema, s, e, s', t);
    }
  }

  function OldAndUnexpired(log: seq<Transaction>, a: Account, cutoff: int): Transaction -> bool {
    (t: Transaction) => IsOldAndUnexpired(log, t, a, cutoff)
  }

  /**
   After any run it takes the sum of those earns from the balance, floored once at zero, and from no
   other account.
   */
  lemma ExpiryTakesExactly(schema: Schema, run: seq<Event>, e: Event, s': Tables)
    requires IsRun(schema, run) && e.op.ExpireTx? && Enabled(State(schema, run), e)
    requires Step(schema, State(schema, run), e.op, e.now) == Ok(s')
    ensures var (s, a) := (State(schema, run), e.op.account);
      var left := Balance(s, a) - Total(s.log, OldAndUnexpired(s.log, a, e.now - e.op.days * DAY));
      && Balance(s', a) == (if left < 0 then 0 else left)
      && forall b :: b != a ==> Balance(s', b) == Balance(s, b)
  {
    RunSound(schema, run);
    SoundTakes(schema, State(schema, run), e, s');
  }

  lemma SoundTakes(schema: Schema, s: Tables, e: Event, s': Tables)
    requires ExpiresTo(schema, s, e, s') && Sound(s)
    ensures var left := Balance(s, e.op.account) -
      Total(s.log, OldAndUnexpired(s.log, e.op.account, e.now - e.op.days * DAY));
      Balance(s', e.op.account) == if left < 0 then 0 else left
    ensures forall b :: b != e.op.account ==> Balance(s', b) == Balance(s, b)
  {
    ExpiryBalance(schema, s, e, s');
    DueIsOld(s.log, e.op.account, e.now - e.op.days * DAY);
  }

  lemma DueIsOld(log: seq<Transaction>, a: Account, cutoff: int)
    ensures DueAmount(log, a, cutoff) == Total(log, OldAndUnexpired(log, a, cutoff))
  {
    TotalAgree(log, Due(log, a, cutoff), OldAndUnexpired(log, a, cutoff));
  }

  lemma NewRowExpires(schema: Schema, s: Tables, e: Event, s': Tables, j: nat) returns (t: Transaction)
    requires e.op.ExpireTx? && Enabled(s, e) && Step(schema, s, e.op, e.now) == Ok(s')
    requires |s.log| <= j < |s'.log|
    ensures t in s.log && Expires(s'.log[j], t)
    ensures IsOldAndUnexpired(s.log, t, e.op.account, e.now - e.op.days * DAY)
  {
    ExpiryOutcome(schema, s, e);
    var i := j - |s.log|;
    t := e.op.rows[i];
    assert IsMarker(s'.log[|s.log| + i], e.op.account, t, e.op.ids[i]);
    HandledRows(s, e, t);
  }

  lemma OldIsExpired(schema: Schema, s: Tables, e: Event, s': Tables, t: Transaction)
    requires e.op.ExpireTx? && Enabled(s, e) && Step(schema, s, e.op, e.now) == Ok(s') && t in s.log
    requires t.account == e.op.account && t.kind == Earn && t.amount > 0 && t.createdAt < e.now - e.op.days * DAY
    ensures exists x <- s'.log :: x.kind == Expiration && x.expires == Some(t.id)
  {
    ExpiryMarks(schema, s, e, s', t.id);
    HandledRows(s, e, t);
    EnabledRows(s, e);
  }

  /** Over any run, each expiration row was logged by an expiry, and names an earn that was then old enough. */
  lemma {:induction false} ExpirationsNameOldEarns(schema: Schema, run: seq<Event>, j: nat)
      returns (k: nat, t: Transaction)
    requires IsRun(schema, run) && j < |State(schema, run).log| && State(schema, run).log[j].kind == Expiration
    ensures k < |run| && run[k].op.ExpireTx? && IsRun(schema, run[..k]) && t in State(schema, run[..k]).log
    ensures Expires(State(schema, run).log[j], t) && t.kind == Earn && t.account == run[k].op.account
    ensures t.createdAt < run[k].now - run[k].op.days * DAY
  {
    var (before, e, n) := (run[..|run| - 1], run[|run| - 1], |run| - 1);
    var (s, s') := (State(schema, before), State(schema, run));
    StepGrows(schema, s, e);
    if j < |s.log| {
      k, t := ExpirationsNameOldEarns(schema, before, j);
      assert run[..k] == before[..k];
    } else {
      OnlyExpiriesExpire(schema, s, e, j);
      k := n;
      t := NewRowExpires(schema, s, e, s', j);
      assert run[..k] == before;
    }
  }

  lemma StepGrows(schema: Schema, s: Tables, e: Event)
    requires Enabled(s, e)
    ensures s.log <= After(schema, s, e.op, e.now).log
  {
    if e.op.ExpireTx? {
      ExpiryOutcome(schema, s, e);
    } else if Step(schema, s, e.op, e.now).Ok? {
      StepPosts(schema, s, e.op, e.now);
    }
  }

  lemma OnlyExpiriesExpire(schema: Schema, s: Tables, e: Event, j: nat)
    requires Enabled(s, e) && |s.log| <= j < |After(schema, s, e.op, e.now).log|
    requires After(schema, s, e.op, e.now).log[j].kind == Expiration
    ensures e.op.ExpireTx? && Step(schema, s, e.op, e.now).Ok?
  {
    if !e.op.ExpireTx? && Step(schema, s, e.op, e.now).Ok? {
      StepPosts(schema, s, e.op, e.now);
    }
  }

  // ---------- rewards ----------

  /**
   After any run a reward is changed as asked, a cost of zero or less meaning the old one, unless
   the stock would be negative or below what was redeemed.
   */
  lemma RewardUpdateExactly(schema: Schema, run: seq<Event>, id: Id, cost: int, stock: Option<int>, now: int)
    requires IsRun(schema, run)
    ensures var s := State(schema, run);
      var r := Step(schema, s, UpdateReward(id, cost, stock), now);
      if id !in s.rewards then r == Ok(s)
      else if stock.Some? && (stock.value < 0 || stock.value < Redeemed(s.redemptions, id))
        then r == Err(CheckViolation)
      else
        var w := s.rewards[id];
        r == Ok(Tables(s.balances, s.log,
                       s.rewards[id := Reward(if cost > 0 then cost else w.cost, stock, w.redeemedCount)],
                           s.redemptions))
  {
    RunKeepsStock(schema, run);
  }

  /** A reward is created with nothing redeemed, unless its id is taken or its stock negative. */
  lemma RewardCreationExactly(schema: Schema, s: Tables, id: Id, cost: int, stock: Option<int>, now: int)
    ensures var r := Step(schema, s, CreateReward(id, cost, stock), now);
      if id in s.rewards then r == Err(UniqueViolation)
      else if stock.Some? && stock.value < 0 then r == Err(CheckViolation)
      else r == Ok(Tables(s.balances, s.log, s.rewards[id := Reward(cost, stock, 0)], s.redemptions))
  {}
}
