/**
 The repository: each operation runs its statements one after another on the tables and, on
 the first refusal, rolls back to where it began. Every method is proved to take the tables
 through exactly one atomic step of the ledger.
 */
module LedgerRepository {
  import opened Wrappers
  import opened Clock
  import opened Receipts
  import opened Ledger
  import opened LedgerBalances

  class Repository {
    const schema: Schema
    var balances: map<Account, int>
    var log: seq<Transaction>
    var rewards: map<Id, Reward>
    var redemptions: seq<Redemption>

    ghost function Now(): Tables
      reads this
    {
      Tables(balances, log, rewards, redemptions)
    }

    constructor (schema: Schema)
      ensures Now() == EMPTY && this.schema == schema
    {
      this.schema := schema;
      balances, log, rewards, redemptions := map[], [], map[], [];
    }

    // ---------- transactions ----------

    method Begin() returns (saved: Tables)
      ensures saved == Now()
    {
      saved := Tables(balances, log, rewards, redemptions);
    }

    method Rollback(saved: Tables)
      modifies this
      ensures Now() == saved
    {
      balances, log, rewards, redemptions := saved.balances, saved.log, saved.rewards, saved.redemptions;
    }

    // ---------- statements ----------

    /** Upsert: a missing row starts from zero, and no balance goes below zero. */
    method UpsertBalance(a: Account, amount: int) returns (after: int)
      modifies this`balances
      ensures after == Floor0(Balance(old(Now()), a) + amount)
      ensures balances == old(balances)[a := after]
    {
      var v := (if a in balances then balances[a] else 0) + amount;
      after := if v < 0 then 0 else v;
      balances := balances[a := after];
    }

    /** Conditional update; no row is affected when the account has none or too little. */
    method DeductBalance(a: Account, cost: int) returns (after: Option<int>)
      modifies this`balances
      ensures after.Some? <==> a in old(balances) && old(balances)[a] >= cost
      ensures after.Some? ==> after.value == old(balances)[a] - cost >= 0 && balances == old(balances)[a := after.value]
      ensures after.None? ==> balances == old(balances)
    {
      if a in balances && balances[a] >= cost {
        balances := balances[a := balances[a] - cost];
        after := Some(balances[a]);
      } else {
        after := None;
      }
    }

    method InsertTransaction(t: Transaction) returns (failure: Option<Error>)
      modifies this`log
      ensures failure == (
        if t.kind == Expiration && !schema.admitsExpiration then Some(CheckViolation)
        else if Collides(old(log), t) then Some(UniqueViolation) else None)
      ensures log == if failure.None? then old(log) + [t] else old(log)
    {
      if t.kind == Expiration && !schema.admitsExpiration {
        return Some(CheckViolation);
      }
      if Collides(log, t) {
        return Some(UniqueViolation);
      }
      log := log + [t];
      failure := None;
    }

    /** The due earns, in no promised order. */
    method SelectExpiring(a: Account, cutoff: int) returns (rows: seq<Transaction>)
      ensures multiset(rows) == multiset(Expiring(log, a, cutoff))
      ensures forall t :: t in rows <==>
        && t in log && t.account == a && t.kind == Earn && t.amount > 0 && t.createdAt < cutoff
        && !exists x <- log :: x.kind == Expiration && x.expires == Some(t.id)
    {
      rows := [];
      for i := 0 to |log|
        invariant rows == DueIn(log, log[..i], a, cutoff)
      {
        assert log[..i + 1][..i] == log[..i];
        if IsDue(log, log[i], a, cutoff) {
          rows := rows + [log[i]];
        }
      }
      assert log[..|log|] == log;
      DueRows(log, log, a, cutoff);
    }

    // ---------- operations ----------

    /** Credits an earn, clamped to the period cap inside the transaction. */
    method AddTx(id: Id, a: Account, amount: int, cap: Option<Cap>, fp: Fingerprint, until: int, now: int)
      returns (r: Result<Transaction, Error>)
      modifies this
      ensures var op := Op.AddTx(id, a, amount, cap, fp, until);
        && Now() == After(schema, old(Now()), op, now)
        && (r.Err? <==> Step(schema, old(Now()), op, now).Err?)
        && (r.Err? ==> r.error == Step(schema, old(Now()), op, now).error)
        && (r.Ok? ==>
            && log == old(log) + [r.value] && a in balances && balances[a] == r.value.balanceAfter
            && r.value.amount == Clamp(old(log), a, amount, cap, now).value)
    {
      var saved := Begin();
      var credited := amount;
      if cap.Some? {
        var accumulated := Total(log, EarnsSince(a, now - cap.value.windowDays * DAY));
        var remaining := cap.value.limit - accumulated as real;
        if remaining <= 0.0 {
          return Err(PeriodCapExhausted);
        }
        if credited as real > remaining {
          credited := remaining.Floor;
        }
        if credited <= 0 {
          return Err(PeriodCapExhausted);
        }
      }
      assert Clamp(saved.log, a, amount, cap, now) == Ok(credited);
      var after := UpsertBalance(a, credited);
      var t := Transaction(id, a, Earn, credited, after, None, Some(until), fp, now);
      var failure := InsertTransaction(t);
      if failure.Some? {
        Rollback(saved);
        return Err(DuplicateReceipt);
      }
      r := Ok(t);
    }

    /** Reserves stock, deducts, logs and records the redemption; any refusal undoes all of it. */
    method BurnTx(id: Id, a: Account, rewardId: Id, cost: int, redemptionId: Id, code: string, expiresAt: int, now: int)
      returns (r: Result<Redemption, Error>)
      modifies this
      ensures var op := Op.BurnTx(id, a, rewardId, cost, redemptionId, code, expiresAt);
        && Now() == After(schema, old(Now()), op, now)
        && (r.Err? <==> Step(schema, old(Now()), op, now).Err?)
        && (r.Err? ==> r.error == Step(schema, old(Now()), op, now).error)
        && (r.Ok? ==> redemptions == old(redemptions) + [r.value])
    {
      var saved := Begin();
      if rewardId !in rewards || !InStock(rewards[rewardId]) {
        return Err(OutOfStock);
      }
      var w := rewards[rewardId];
      rewards := rewards[rewardId := w.(redeemedCount := w.redeemedCount + 1)];
      var after := DeductBalance(a, cost);
      if after.None? {
        Rollback(saved);
        return Err(InsufficientBalance);
      }
      var failure := InsertTransaction(Row(id, a, Burn, -cost, now).(balanceAfter := after.value));
      if failure.Some? {
        Rollback(saved);
        return Err(UniqueViolation);
      }
      var rd := Redemption(redemptionId, a, rewardId, code, Pending, cost, expiresAt);
      if exists x <- redemptions :: x.id == redemptionId || x.code == code {
        Rollback(saved);
        return Err(UniqueViolation);
      }
      redemptions := redemptions + [rd];
      r := Ok(rd);
    }

    method AdjustTx(id: Id, a: Account, amount: int, original: Id, now: int) returns (r: Result<Transaction, Error>)
      modifies this
      ensures var op := Op.AdjustTx(id, a, amount, original);
        && Now() == After(schema, old(Now()), op, now)
        && (r.Err? <==> Step(schema, old(Now()), op, now).Err?)
        && (r.Err? ==> r.error == Step(schema, old(Now()), op, now).error)
        && (r.Ok? ==> log == old(log) + [r.value])
    {
      var saved := Begin();
      if !Correctable(log, original, now) {
        return Err(NotCorrectable);
      }
      if a !in balances {
        return Err(NotFound);
      }
      var after := UpsertBalance(a, amount);
      var t := Row(id, a, Adjustment, amount, now).(balanceAfter := after);
      var failure := InsertTransaction(t);
      if failure.Some? {
        Rollback(saved);
        return Err(UniqueViolation);
      }
      r := Ok(t);
    }

    /** One turn of the expiry loop: deduct, then log the marker. */
    method ExpireRow(a: Account, e: Transaction, id: Id, now: int) returns (r: Result<int, Error>)
      modifies this
      ensures var x := ExpireOne(schema, old(Now()), a, e, id, now);
        && (r.Ok? <==> x.Ok?)
        && (r.Ok? ==> Now() == x.value && r.value == Balance(Now(), a))
    {
      var newBalance := 0;
      if a in balances {
        newBalance := UpsertBalance(a, -e.amount);
      }
      var failure := InsertTransaction(
        Row(id, a, Expiration, -e.amount, now).(expires := Some(e.id), balanceAfter := newBalance));
      r := if failure.Some? then Err(failure.value) else Ok(newBalance);
    }

    method ExpireRows(a: Account, rows: seq<Transaction>, uuid: nat -> Id, now: int) returns (r: Result<int, Error>)
      modifies this
      ensures var x := ExpireAll(schema, old(Now()), a, rows, Drawn(uuid, |rows|), now);
        && (r.Ok? <==> x.Ok?)
        && (r.Ok? ==> Now() == x.value && r.value == Balance(Now(), a))
    {
      ghost var (before, ids) := (Now(), Drawn(uuid, |rows|));
      var newBalance := if a in balances then balances[a] else 0;
      for i := 0 to |rows|
        invariant ExpireAll(schema, before, a, rows[..i], ids[..i], now) == Ok(Now())
        invariant newBalance == Balance(Now(), a)
      {
        ExpireAllSnoc(schema, before, a, rows, ids, now, i);
        var turn := ExpireRow(a, rows[i], uuid(i), now);
        if turn.Err? {
          FailedPrefix(schema, before, a, rows, ids, now, i + 1);
          return turn;
        }
        newBalance := turn.value;
      }
      assert rows[..|rows|] == rows && ids[..|rows|] == ids;
      r := Ok(newBalance);
    }

    /** Expires what is due, row by row. `uuid` supplies the identifiers of the marker rows. */
    method ExpireBalance(a: Account, days: int, uuid: nat -> Id, now: int)
      returns (r: Result<int, Error>, ghost rows: seq<Transaction>)
      modifies this
      ensures var op := ExpireTx(a, days, rows, Drawn(uuid, |rows|));
        && Enabled(old(Now()), Event(op, now))
        && Now() == After(schema, old(Now()), op, now)
        && (r.Err? <==> Step(schema, old(Now()), op, now).Err?)
        && (r.Ok? ==> r.value == Balance(Now(), a))
    {
      var saved := Begin();
      var toExpire := SelectExpiring(a, now - days * DAY);
      rows := toExpire;
      r := ExpireRows(a, toExpire, uuid, now);
      if r.Err? {
        Rollback(saved);
      }
    }

    method ConfirmRedemption(id: Id)
      modifies this`redemptions
      ensures Now() == After(schema, old(Now()), ConfirmTx(id), 0)
    {
      redemptions := Confirmed1(redemptions, id);
    }

    method ExpirePendingRedemptions(now: int)
      modifies this`redemptions
      ensures Now() == After(schema, old(Now()), LapsePending, now)
    {
      redemptions := LapsedAt(redemptions, now);
    }

    method UpdateRewardAdmin(id: Id, cost: int, stockTotal: Option<int>) returns (failure: Option<Error>)
      modifies this`rewards
      ensures Now() == After(schema, old(Now()), UpdateReward(id, cost, stockTotal), 0)
      ensures failure.Some? <==> Step(schema, old(Now()), UpdateReward(id, cost, stockTotal), 0).Err?
    {
      failure := None;
      if id in rewards {
        var w := UpdatedReward(rewards[id], cost, stockTotal);
        if !StockChecks(w) {
          return Some(CheckViolation);
        }
        rewards := rewards[id := w];
      }
    }

    method CreateRewardAdmin(id: Id, cost: int, stockTotal: Option<int>) returns (failure: Option<Error>)
      modifies this`rewards
      ensures Now() == After(schema, old(Now()), CreateReward(id, cost, stockTotal), 0)
      ensures failure.Some? <==> Step(schema, old(Now()), CreateReward(id, cost, stockTotal), 0).Err?
    {
      failure := None;
      if id in rewards {
        return Some(UniqueViolation);
      }
      var w := Reward(cost, stockTotal, 0);
      if !StockChecks(w) {
        return Some(CheckViolation);
      }
      rewards := rewards[id := w];
    }

    method GetBalance(a: Account) returns (b: int)
      ensures b == Balance(Now(), a)
    {
      b := if a in balances then balances[a] else 0;
    }
  }

  /** The first `n` identifiers supplied. */
  function Drawn(uuid: nat -> Id, n: nat): (ids: seq<Id>)
    ensures |ids| == n && forall i :: 0 <= i < n ==> ids[i] == uuid(i)
  {
    seq(n, i requires 0 <= i < n => uuid(i))
  }

  lemma ExpireAllSnoc(schema: Schema, s: Tables, a: Account, rows: seq<Transaction>, ids: seq<Id>, now: int, i: nat)
    requires i < |rows| == |ids|
    ensures ExpireAll(schema, s, a, rows[..i + 1], ids[..i + 1], now) ==
      var r := ExpireAll(schema, s, a, rows[..i], ids[..i], now);
      if r.Err? then r else ExpireOne(schema, r.value, a, rows[i], ids[i], now)
  {
    assert rows[..i + 1][..i] == rows[..i] && ids[..i + 1][..i] == ids[..i];
  }

  /** Once the loop has failed it stays failed. */
  lemma {:induction false} FailedPrefix(
    schema: Schema, s: Tables, a: Account, rows: seq<Transaction>, ids: seq<Id>, now: int, k: nat)
    requires |rows| == |ids| && k <= |rows| && ExpireAll(schema, s, a, rows[..k], ids[..k], now).Err?
    ensures ExpireAll(schema, s, a, rows, ids, now).Err?
  {
    if k == |rows| {
      assert rows[..k] == rows && ids[..k] == ids;
    } else {
      var n := |rows| - 1;
      assert rows[..n][..k] == rows[..k] && ids[..n][..k] == ids[..k];
      FailedPrefix(schema, s, a, rows[..n], ids[..n], now, k);
    }
  }
}
