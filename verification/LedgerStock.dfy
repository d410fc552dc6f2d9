/** Reward stock and redemptions over whole runs: no oversell, and one burn behind each redemption. */
module LedgerStock {
  import opened Wrappers
  import opened Clock
  import opened Ledger
  import opened LedgerBalances
  import opened LedgerExpiry

  /** How many redemptions name this reward. */
  function Redeemed(rds: seq<Redemption>, id: Id): nat {
    if rds == [] then 0
    else Redeemed(rds[..|rds| - 1], id) + if rds[|rds| - 1].rewardId == id then 1 else 0
  }

  function Burns(log: seq<Transaction>): seq<Transaction> {
    if log == [] then []
    else Burns(log[..|log| - 1]) + if log[|log| - 1].kind == Burn then [log[|log| - 1]] else []
  }

  ghost predicate Stocked(s: Tables) {
    && (forall id <- s.rewards ::
        s.rewards[id].redeemedCount == Redeemed(s.redemptions, id) && StockChecks(s.rewards[id]))
    && (forall rd <- s.redemptions :: rd.rewardId in s.rewards)
  }

  /** The burns of the log and the redemptions, in order, are of the same accounts and opposite amounts. */
  ghost predicate Matched(log: seq<Transaction>, rds: seq<Redemption>) {
    && |Burns(log)| == |rds|
    && forall i :: 0 <= i < |rds| ==>
      Burns(log)[i].account == rds[i].account && Burns(log)[i].amount == -rds[i].amountSpent
  }

  /** The rows agree except for their status. */
  ghost predicate OnlyStatusDiffers(rds: seq<Redemption>, rds': seq<Redemption>) {
    |rds'| == |rds| && forall i :: 0 <= i < |rds| ==> rds'[i] == rds[i].(status := rds'[i].status)
  }

  lemma {:induction false} RedeemedIgnoresStatus(rds: seq<Redemption>, rds': seq<Redemption>, id: Id)
    requires OnlyStatusDiffers(rds, rds')
    ensures Redeemed(rds', id) == Redeemed(rds, id)
  {
    if rds != [] {
      RedeemedIgnoresStatus(rds[..|rds| - 1], rds'[..|rds'| - 1], id);
    }
  }

  lemma {:induction false} RedeemedNone(rds: seq<Redemption>, id: Id)
    requires forall rd <- rds :: rd.rewardId != id
    ensures Redeemed(rds, id) == 0
  {
    if rds != [] {
      assert rds[|rds| - 1] in rds;
      RedeemedNone(rds[..|rds| - 1], id);
    }
  }

  lemma BurnsSnoc(log: seq<Transaction>, t: Transaction)
    ensures Burns(log + [t]) == Burns(log) + if t.kind == Burn then [t] else []
  {
    assert (log + [t])[..|log + [t]| - 1] == log;
  }

  lemma {:induction false} BurnsOfMarkers(log: seq<Transaction>, log': seq<Transaction>, a: Account,
      rows: seq<Transaction>, ids: seq<Id>)
    requires AppendsMarkers(log, log', a, rows, ids)
    ensures Burns(log') == Burns(log)
    decreases |rows|
  {
    if rows == [] {
      assert log' == log;
    } else {
      var n := |rows| - 1;
      var init := log'[..|log'| - 1];
      assert IsMarker(log'[|log| + n], a, rows[n], ids[n]);
      assert AppendsMarkers(log, init, a, rows[..n], ids[..n]);
      BurnsOfMarkers(log, init, a, rows[..n], ids[..n]);
    }
  }

  lemma StatusKeepsStock(s: Tables, rds: seq<Redemption>)
    requires Stocked(s) && Matched(s.log, s.redemptions) && OnlyStatusDiffers(s.redemptions, rds)
    ensures Stocked(s.(redemptions := rds)) && Matched(s.log, rds)
  {
    forall id <- s.rewards ensures Redeemed(rds, id) == Redeemed(s.redemptions, id) {
      RedeemedIgnoresStatus(s.redemptions, rds, id);
    }
    forall rd <- rds ensures rd.rewardId in s.rewards {
      var i :| 0 <= i < |rds| && rds[i] == rd;
      assert s.redemptions[i] in s.redemptions;
    }
  }

  lemma BurnKeepsStock(s: Tables, op: Op, now: int)
    requires Stocked(s) && Matched(s.log, s.redemptions) && op.BurnTx? && BurnOf(s, op, now).Ok?
    ensures var s' := BurnOf(s, op, now).value;
      Stocked(s') && Matched(s'.log, s'.redemptions)
  {
    var s' := BurnOf(s, op, now).value;
    assert s'.redemptions[..|s'.redemptions| - 1] == s.redemptions;
    BurnsSnoc(s.log, s'.log[|s.log|]);
  }

  lemma PostKeepsStock(schema: Schema, s: Tables, op: Op, now: int)
    requires Stocked(s) && Matched(s.log, s.redemptions) && (op.AddTx? || op.AdjustTx?) && Step(schema, s, op, now).Ok?
    ensures var s' := Step(schema, s, op, now).value; Stocked(s') && Matched(s'.log, s'.redemptions)
  {
    StepPosts(schema, s, op, now);
    BurnsSnoc(s.log, Step(schema, s, op, now).value.log[|s.log|]);
  }

  lemma ExpiryKeepsStock(schema: Schema, s: Tables, e: Event, s': Tables)
    requires Stocked(s) && Matched(s.log, s.redemptions) && ExpiresTo(schema, s, e, s')
    ensures Stocked(s') && Matched(s'.log, s'.redemptions)
  {
    ExpiryOutcome(schema, s, e);
    BurnsOfMarkers(s.log, s'.log, e.op.account, e.op.rows, e.op.ids);
  }

  lemma StepKeepsStock(schema: Schema, s: Tables, e: Event)
    requires Stocked(s) && Matched(s.log, s.redemptions) && Enabled(s, e)
    ensures var s' := After(schema, s, e.op, e.now); Stocked(s') && Matched(s'.log, s'.redemptions)
  {
    var r := Step(schema, s, e.op, e.now);
    if r.Ok? {
      match e.op
      case BurnTx(_, _, _, _, _, _, _) => BurnKeepsStock(s, e.op, e.now);
      case ExpireTx(_, _, _, _) => ExpiryKeepsStock(schema, s, e, r.value);
      case AddTx(_, _, _, _, _, _) => PostKeepsStock(schema, s, e.op, e.now);
      case AdjustTx(_, _, _, _) => PostKeepsStock(schema, s, e.op, e.now);
      case ConfirmTx(id) => StatusKeepsStock(s, r.value.redemptions);
      case LapsePending => StatusKeepsStock(s, r.value.redemptions);
      case CreateReward(id, _, _) => RedeemedNone(s.redemptions, id);
      case UpdateReward(_, _, _) =>
    }
  }

  lemma {:induction false} RunKeepsStock(schema: Schema, run: seq<Event>)
    requires IsRun(schema, run)
    ensures var s := State(schema, run); Stocked(s) && Matched(s.log, s.redemptions)
  {
    if run != [] {
      RunKeepsStock(schema, run[..|run| - 1]);
      StepKeepsStock(schema, State(schema, run[..|run| - 1]), run[|run| - 1]);
    }
  }

  /** A reward is never redeemed beyond its stock, and its counter is the number of its redemptions. */
  lemma NoOversell(schema: Schema, run: seq<Event>, id: Id)
    requires IsRun(schema, run) && id in State(schema, run).rewards
    ensures var s := State(schema, run);
      && s.rewards[id].redeemedCount == Redeemed(s.redemptions, id)
      && (s.rewards[id].stockTotal.Some? ==> Redeemed(s.redemptions, id) <= s.rewards[id].stockTotal.value)
  {
    RunKeepsStock(schema, run);
  }

  /** Redemptions and burns pair off: same account, opposite amount. */
  lemma EachRedemptionHasItsBurn(schema: Schema, run: seq<Event>)
    requires IsRun(schema, run)
    ensures var s := State(schema, run); Matched(s.log, s.redemptions)
  {
    RunKeepsStock(schema, run);
  }

  /** An admin may lower a finite stock down to what has been redeemed, and no further. */
  lemma StockUpdateAllowed(schema: Schema, run: seq<Event>, id: Id, cost: int, stock: int, now: int)
    requires IsRun(schema, run) && id in State(schema, run).rewards
    ensures var s := State(schema, run);
      Step(schema, s, UpdateReward(id, cost, Some(stock)), now).Ok? <==> Redeemed(s.redemptions, id) <= stock
  {
    RunKeepsStock(schema, run);
    StockedUpdate(schema, State(schema, run), id, cost, stock, now);
  }

  lemma StockedUpdate(schema: Schema, s: Tables, id: Id, cost: int, stock: int, now: int)
    requires Stocked(s) && id in s.rewards
    ensures Step(schema, s, UpdateReward(id, cost, Some(stock)), now).Ok? <==> Redeemed(s.redemptions, id) <= stock
  {}

  /** A redemption that is no longer pending never changes again, and a confirmation is never undone. */
  lemma SettledForGood(schema: Schema, s: Tables, e: Event, i: nat)
    requires Enabled(s, e) && i < |s.redemptions| && s.redemptions[i].status != Pending
    ensures var s' := After(schema, s, e.op, e.now); i < |s'.redemptions| && s'.redemptions[i] == s.redemptions[i]
  {
    if e.op.ExpireTx? {
      ExpiryOutcome(schema, s, e);
    }
  }
}
