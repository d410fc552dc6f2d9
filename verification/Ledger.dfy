/**
 The loyalty ledger as values: the tables of one system (cashback or earn-burn), what each
 transactional repository operation does to them, and the states a run can reach.

 Amounts are whole cents (cashback) or points (earn-burn). A period cap is any real number
 of cents, so that rounding it down matters.
 */
module Ledger {
  import opened Wrappers
  import opened Clock
  import opened Receipts

  type Id = string

  /** One client of one program: the key of a balance row. */
  datatype Account = Account(client: Id, program: Id)

  datatype Kind = Earn | Burn | Adjustment | Expiration

  datatype Transaction = Transaction(
    id: Id, account: Account, kind: Kind, amount: int, balanceAfter: int,
    expires: Option<Id>,            // on an expiration: the earn it expires
    correctableUntil: Option<int>,  // on an earn
    fingerprint: Fingerprint,
    createdAt: int)

  const NO_FINGERPRINT := Fingerprint(None, None, [], false)

  datatype Status = Pending | Confirmed | Lapsed

  datatype Redemption = Redemption(
    id: Id, account: Account, rewardId: Id, code: string, status: Status, amountSpent: int, expiresAt: int)

  datatype Reward = Reward(cost: int, stockTotal: Option<int>, redeemedCount: int)

  /** `log` and `redemptions` list their rows in insertion order. */
  datatype Tables = Tables(
    balances: map<Account, int>, log: seq<Transaction>, rewards: map<Id, Reward>, redemptions: seq<Redemption>)

  const EMPTY := Tables(map[], [], map[], [])

  /** Whether the transaction table accepts rows of type 'expiration'. */
  datatype Schema = Schema(admitsExpiration: bool)

  const CASHBACK := Schema(true)
  const EARN_BURN := Schema(false)

  datatype Error =
    | NotFound | BelowMinimum | NothingToCredit | PeriodCapExhausted | DuplicateReceipt
    | OutOfStock | InsufficientBalance | NotCorrectable | NotPending | CodeExpired | WrongCodeType
    | UniqueViolation | CheckViolation

  // ---------- queries ----------

  function Balance(s: Tables, a: Account): int {
    if a in s.balances then s.balances[a] else 0
  }

  /** Sum of the amounts of the selected rows. */
  function Total(log: seq<Transaction>, selected: Transaction -> bool): int {
    if log == [] then 0
    else
      var t := log[|log| - 1];
      Total(log[..|log| - 1], selected) + if selected(t) then t.amount else 0
  }

  function EarnsSince(a: Account, from: int): Transaction -> bool {
    (t: Transaction) => t.account == a && t.kind == Earn && t.amount > 0 && from <= t.createdAt
  }

  predicate HasId(log: seq<Transaction>, id: Id) {
    exists t <- log :: t.id == id
  }

  /** Some expiration row refers to this earn. */
  predicate Marked(log: seq<Transaction>, earn: Id) {
    exists x <- log :: x.kind == Expiration && x.expires == Some(earn)
  }

  /** An earn of the account older than the cutoff and not yet expired. */
  predicate IsDue(log: seq<Transaction>, e: Transaction, a: Account, cutoff: int) {
    e.account == a && e.kind == Earn && e.amount > 0 && e.createdAt < cutoff && !Marked(log, e.id)
  }

  function Expiring(log: seq<Transaction>, a: Account, cutoff: int): seq<Transaction> {
    DueIn(log, log, a, cutoff)
  }

  function DueIn(log: seq<Transaction>, part: seq<Transaction>, a: Account, cutoff: int): seq<Transaction> {
    if part == [] then []
    else
      var e := part[|part| - 1];
      DueIn(log, part[..|part| - 1], a, cutoff) + if IsDue(log, e, a, cutoff) then [e] else []
  }

  // ---------- statements ----------

  function Floor0(v: int): nat {
    if v < 0 then 0 else v
  }

  /** Move the balance by the row's amount, floored at zero, and append the row. */
  function Post(s: Tables, t: Transaction): Tables {
    var after := Floor0(Balance(s, t.account) + t.amount);
    s.(balances := s.balances[t.account := after], log := s.log + [t.(balanceAfter := after)])
  }

  /** What is credited of a requested amount under a period cap. */
  function Clamp(log: seq<Transaction>, a: Account, amount: int, cap: Option<Cap>, now: int): Result<int, Error> {
    if cap.None? then Ok(amount)
    else
      var remaining := cap.value.limit - Total(log, EarnsSince(a, now - cap.value.windowDays * DAY)) as real;
      if remaining <= 0.0 then Err(PeriodCapExhausted)
      else
        var credited := if amount as real > remaining then remaining.Floor else amount;
        if credited <= 0 then Err(PeriodCapExhausted) else Ok(credited)
  }

  /** The unique indexes of the transaction table: the id, and the receipt hash within a program. */
  predicate Collides(log: seq<Transaction>, t: Transaction) {
    || HasId(log, t.id)
    || (t.fingerprint.hash.Some? &&
        exists x <- log :: x.account.program == t.account.program && x.fingerprint.hash == t.fingerprint.hash)
  }

  // ---------- operations ----------

  datatype Cap = Cap(limit: real, windowDays: int)

  datatype Op =
    | AddTx(id: Id, account: Account, amount: int, cap: Option<Cap>, fingerprint: Fingerprint, correctableUntil: int)
    | BurnTx(id: Id, account: Account, rewardId: Id, cost: int, redemptionId: Id, code: string, expiresAt: int)
    | AdjustTx(id: Id, account: Account, amount: int, original: Id)
    | ExpireTx(account: Account, days: int, rows: seq<Transaction>, ids: seq<Id>)
    | ConfirmTx(redemptionId: Id)
    | LapsePending
    | CreateReward(rewardId: Id, cost: int, stockTotal: Option<int>)
    | UpdateReward(rewardId: Id, cost: int, stockTotal: Option<int>)

  function Row(id: Id, a: Account, kind: Kind, amount: int, now: int): Transaction {
    Transaction(id, a, kind, amount, 0, None, None, NO_FINGERPRINT, now)
  }

  function Add(s: Tables, op: Op, now: int): Result<Tables, Error>
    requires op.AddTx?
  {
    var credited := Clamp(s.log, op.account, op.amount, op.cap, now);
    if credited.Err? then Err(credited.error)
    else
      var t := Row(op.id, op.account, Earn, credited.value, now).(
                 correctableUntil := Some(op.correctableUntil), fingerprint := op.fingerprint);
      if Collides(s.log, t) then Err(DuplicateReceipt) else Ok(Post(s, t))
  }

  predicate InStock(w: Reward) {
    w.stockTotal.None? || w.redeemedCount < w.stockTotal.value
  }

  function BurnOf(s: Tables, op: Op, now: int): Result<Tables, Error>
    requires op.BurnTx?
  {
    if op.rewardId !in s.rewards || !InStock(s.rewards[op.rewardId]) then Err(OutOfStock)
    else if op.account !in s.balances || s.balances[op.account] < op.cost then Err(InsufficientBalance)
    else if HasId(s.log, op.id) || exists r <- s.redemptions :: r.id == op.redemptionId || r.code == op.code then
      Err(UniqueViolation)
    else
      var w := s.rewards[op.rewardId];
      var rd := Redemption(op.redemptionId, op.account, op.rewardId, op.code, Pending, op.cost, op.expiresAt);
      Ok(Post(s, Row(op.id, op.account, Burn, -op.cost, now)).(
           rewards := s.rewards[op.rewardId := w.(redeemedCount := w.redeemedCount + 1)],
           redemptions := s.redemptions + [rd]))
  }

  predicate Correctable(log: seq<Transaction>, id: Id, now: int) {
    exists t <- log :: t.id == id && t.correctableUntil.Some? && t.correctableUntil.value > now
  }

  function Adjust(s: Tables, op: Op, now: int): Result<Tables, Error>
    requires op.AdjustTx?
  {
    if !Correctable(s.log, op.original, now) then Err(NotCorrectable)
    else if op.account !in s.balances then Err(NotFound)
    else if HasId(s.log, op.id) then Err(UniqueViolation)
    else Ok(Post(s, Row(op.id, op.account, Adjustment, op.amount, now)))
  }

  /** One turn of the expiry loop. */
  function ExpireOne(schema: Schema, s: Tables, a: Account, e: Transaction, id: Id, now: int): Result<Tables, Error> {
    var x := Row(id, a, Expiration, -e.amount, now).(expires := Some(e.id));
    if !schema.admitsExpiration then Err(CheckViolation)
    else if HasId(s.log, id) then Err(UniqueViolation)
    else if a in s.balances then Ok(Post(s, x))
    else Ok(s.(log := s.log + [x]))
  }

  function ExpireAll(schema: Schema, s: Tables, a: Account, rows: seq<Transaction>, ids: seq<Id>,
      now: int): Result<Tables, Error>
    requires |rows| == |ids|
  {
    if rows == [] then Ok(s)
    else
      var n := |rows| - 1;
      var r := ExpireAll(schema, s, a, rows[..n], ids[..n], now);
      if r.Err? then r else ExpireOne(schema, r.value, a, rows[n], ids[n], now)
  }

  function Confirmed1(rds: seq<Redemption>, id: Id): (r: seq<Redemption>)
    ensures |r| == |rds|
    ensures forall i :: 0 <= i < |rds| ==>
      r[i] == if rds[i].id == id && rds[i].status == Pending then rds[i].(status := Confirmed) else rds[i]
  {
    seq(|rds|, i requires 0 <= i < |rds| =>
      if rds[i].id == id && rds[i].status == Pending then rds[i].(status := Confirmed) else rds[i])
  }

  function LapsedAt(rds: seq<Redemption>, now: int): (r: seq<Redemption>)
    ensures |r| == |rds|
    ensures forall i :: 0 <= i < |rds| ==>
      r[i] == if rds[i].status == Pending && rds[i].expiresAt < now then rds[i].(status := Lapsed) else rds[i]
  {
    seq(|rds|, i requires 0 <= i < |rds| =>
      if rds[i].status == Pending && rds[i].expiresAt < now then rds[i].(status := Lapsed) else rds[i])
  }

  /** The stock constraints of the reward table. */
  predicate StockChecks(w: Reward) {
    w.stockTotal.Some? ==> 0 <= w.stockTotal.value && w.redeemedCount <= w.stockTotal.value
  }

  function UpdatedReward(w: Reward, cost: int, stockTotal: Option<int>): Reward {
    w.(cost := if cost > 0 then cost else w.cost, stockTotal := stockTotal)
  }

  /** One operation as a single transaction: the new tables, or the error it is rolled back with. */
  function Step(schema: Schema, s: Tables, op: Op, now: int): Result<Tables, Error>
    requires op.ExpireTx? ==> |op.rows| == |op.ids|
  {
    match op
    case AddTx(_, _, _, _, _, _) => Add(s, op, now)
    case BurnTx(_, _, _, _, _, _, _) => BurnOf(s, op, now)
    case AdjustTx(_, _, _, _) => Adjust(s, op, now)
    case ExpireTx(a, _, rows, ids) => ExpireAll(schema, s, a, rows, ids, now)
    case ConfirmTx(id) => Ok(s.(redemptions := Confirmed1(s.redemptions, id)))
    case LapsePending => Ok(s.(redemptions := LapsedAt(s.redemptions, now)))
    case CreateReward(id, cost, stock) =>
      var w := Reward(cost, stock, 0);
      if id in s.rewards then Err(UniqueViolation)
      else if !StockChecks(w) then Err(CheckViolation)
      else Ok(s.(rewards := s.rewards[id := w]))
    case UpdateReward(id, cost, stock) =>
      if id !in s.rewards then Ok(s)
      else
        var w := UpdatedReward(s.rewards[id], cost, stock);
        if !StockChecks(w) then Err(CheckViolation) else Ok(s.(rewards := s.rewards[id := w]))
  }

  /** The row an operation other than an expiry logs, if it succeeds. */
  function NewRow(s: Tables, op: Op, now: int): Option<Transaction> {
    match op
    case AddTx(id, a, amount, cap, fp, until) =>
      var credited := Clamp(s.log, a, amount, cap, now);
      if credited.Err? then None
      else Some(Row(id, a, Earn, credited.value, now).(correctableUntil := Some(until), fingerprint := fp))
    case BurnTx(id, a, _, cost, _, _, _) => Some(Row(id, a, Burn, -cost, now))
    case AdjustTx(id, a, amount, _) => Some(Row(id, a, Adjustment, amount, now))
    case _ => None
  }

  /** On balances and log, an operation other than an expiry posts one new row or does nothing. */
  lemma StepPosts(schema: Schema, s: Tables, op: Op, now: int)
    requires !op.ExpireTx? && Step(schema, s, op, now).Ok?
    ensures var (s', t) := (Step(schema, s, op, now).value, NewRow(s, op, now));
      if t.Some? then s'.balances == Post(s, t.value).balances && s'.log == Post(s, t.value).log
        && !Collides(s.log, t.value)
      else s'.balances == s.balances && s'.log == s.log
  {}

  /** A credit whose receipt is already in the program's log is refused, whatever else holds. */
  lemma RepeatedReceiptRefused(schema: Schema, s: Tables, op: Op, now: int, x: Transaction)
    requires op.AddTx? && x in s.log && x.account.program == op.account.program
    requires x.fingerprint.hash.Some? && x.fingerprint.hash == op.fingerprint.hash
    ensures Step(schema, s, op, now).Err?
  {}

  /** A failed operation leaves every table as it was. */
  function After(schema: Schema, s: Tables, op: Op, now: int): Tables
    requires op.ExpireTx? ==> |op.rows| == |op.ids|
  {
    var r := Step(schema, s, op, now);
    if r.Ok? then r.value else s
  }

  // ---------- runs ----------

  datatype Event = Event(op: Op, now: int)

  /** The rows an expiry handles are exactly the query's answer, in any order. */
  ghost predicate Enabled(s: Tables, e: Event) {
    e.op.ExpireTx? ==>
      && |e.op.rows| == |e.op.ids|
      && multiset(e.op.rows) == multiset(Expiring(s.log, e.op.account, e.now - e.op.days * DAY))
  }

  /** Operations one after another, from empty tables. */
  ghost predicate IsRun(schema: Schema, run: seq<Event>)
    decreases |run|, 0
  {
    run == [] ||
    var (before, e) := (run[..|run| - 1], run[|run| - 1]);
    && IsRun(schema, before)
    && Enabled(State(schema, before), e)
  }

  /** The clock never goes back. */
  ghost predicate ClockForward(run: seq<Event>) {
    forall i, j :: 0 <= i < j < |run| ==> run[i].now <= run[j].now
  }

  ghost function State(schema: Schema, run: seq<Event>): Tables
    requires IsRun(schema, run)
    decreases |run|, 1
  {
    if run == [] then EMPTY
    else
      var e := run[|run| - 1];
      After(schema, State(schema, run[..|run| - 1]), e.op, e.now)
  }
}
