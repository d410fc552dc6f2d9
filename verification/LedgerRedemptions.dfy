/**
 Redemptions over whole runs: their codes are unique, each is confirmed at most once, and lapsing the
 overdue ones hides nothing.
 */
module LedgerRedemptions {
  import opened Wrappers
  import opened Clock
  import opened Ledger
  import opened LedgerBalances
  import opened LedgerExpiry
  import opened LedgerStock
  import opened CashbackService

  ghost predicate UniqueRedemptions(rds: seq<Redemption>) {
    forall i, j :: 0 <= i < j < |rds| ==> rds[i].id != rds[j].id && rds[i].code != rds[j].code
  }

  lemma BurnKeepsUnique(s: Tables, op: Op, now: int)
    requires UniqueRedemptions(s.redemptions) && op.BurnTx? && BurnOf(s, op, now).Ok?
    ensures UniqueRedemptions(BurnOf(s, op, now).value.redemptions)
  {
    forall i | 0 <= i < |s.redemptions|
      ensures s.redemptions[i].id != op.redemptionId && s.redemptions[i].code != op.code {
      assert s.redemptions[i] in s.redemptions;
    }
  }

  /** Only a burn adds a redemption; anything else changes statuses at most. */
  lemma OthersKeepRows(schema: Schema, s: Tables, e: Event)
    requires Enabled(s, e) && !e.op.BurnTx?
    ensures OnlyStatusDiffers(s.redemptions, After(schema, s, e.op, e.now).redemptions)
  {
    if e.op.ExpireTx? {
      ExpiryOutcome(schema, s, e);
    }
  }

  lemma {:induction false} RunKeepsUnique(schema: Schema, run: seq<Event>)
    requires IsRun(schema, run)
    ensures UniqueRedemptions(State(schema, run).redemptions)
  {
    if run != [] {
      var (before, e) := (run[..|run| - 1], run[|run| - 1]);
      RunKeepsUnique(schema, before);
      if e.op.BurnTx? {
        if BurnOf(State(schema, before), e.op, e.now).Ok? {
          BurnKeepsUnique(State(schema, before), e.op, e.now);
        }
      } else {
        OthersKeepRows(schema, State(schema, before), e);
      }
    }
  }

  // ---------- confirming ----------

  /** Some pending redemption has the code, and has not run out. */
  predicate Confirmable(rds: seq<Redemption>, code: string, now: int) {
    exists rd <- rds :: rd.code == code && rd.status == Pending && now <= rd.expiresAt
  }

  /** The one redemption the service finds by its code decides, for no other has the code. */
  lemma FoundDecides(schema: Schema, run: seq<Event>, code: string, now: int)
    requires IsRun(schema, run)
    ensures var rds := State(schema, run).redemptions;
      var found := FindByCode(rds, code);
      Confirmable(rds, code, now) <==> found.Some? && found.value.status == Pending && now <= found.value.expiresAt
  {
    RunKeepsUnique(schema, run);
    var rds := State(schema, run).redemptions;
    var found := FindByCode(rds, code);
    if Confirmable(rds, code, now) {
      var rd :| rd in rds && rd.code == code && rd.status == Pending && now <= rd.expiresAt;
      var i, j :| 0 <= i < |rds| && 0 <= j < |rds| && rds[i] == rd && rds[j] == found.value;
      assert i == j;
    }
  }

  /** Confirming changes the pending redemption of that id, if there is one, and nothing else. */
  lemma ConfirmChangesOne(schema: Schema, run: seq<Event>, i: nat, now: int)
    requires IsRun(schema, run) && i < |State(schema, run).redemptions|
      && State(schema, run).redemptions[i].status == Pending
    ensures var s := State(schema, run);
      After(schema, s, ConfirmTx(s.redemptions[i].id), now) ==
        s.(redemptions := s.redemptions[i := s.redemptions[i].(status := Confirmed)])
  {
    RunKeepsUnique(schema, run);
    var rds := State(schema, run).redemptions;
    var rds' := Confirmed1(rds, rds[i].id);
    forall k | 0 <= k < |rds| ensures rds'[k] == rds[i := rds[i].(status := Confirmed)][k] {
      assert k != i ==> rds[k].id != rds[i].id;
    }
    assert rds' == rds[i := rds[i].(status := Confirmed)];
  }

  lemma {:induction false} SettledStays(schema: Schema, run: seq<Event>, k: nat, i: nat)
    requires IsRun(schema, run) && k <= |run| && IsRun(schema, run[..k])
    requires i < |State(schema, run[..k]).redemptions| && State(schema, run[..k]).redemptions[i].status != Pending
    ensures i < |State(schema, run).redemptions|
      && State(schema, run).redemptions[i] == State(schema, run[..k]).redemptions[i]
  {
    if k == |run| {
      assert run[..k] == run;
    } else {
      var before := run[..|run| - 1];
      assert before[..k] == run[..k];
      SettledStays(schema, before, k, i);
      SettledForGood(schema, State(schema, before), run[|run| - 1], i);
    }
  }

  /** A code once confirmed or lapsed never works again, however the run goes on. */
  lemma SettledCodeIsDead(schema: Schema, run: seq<Event>, k: nat, i: nat, now: int)
    requires IsRun(schema, run) && k <= |run| && IsRun(schema, run[..k])
    requires i < |State(schema, run[..k]).redemptions| && State(schema, run[..k]).redemptions[i].status != Pending
    ensures !Confirmable(State(schema, run).redemptions, State(schema, run[..k]).redemptions[i].code, now)
  {
    SettledStays(schema, run, k, i);
    RunKeepsUnique(schema, run);
  }

  // ---------- lapsing ----------

  /** Lapsing the overdue redemptions, at any time up to now, changes no confirmation made now or later. */
  lemma LapseHidesNothing(rds: seq<Redemption>, at: int, code: string, now: int)
    requires at <= now
    ensures Confirmable(LapsedAt(rds, at), code, now) <==> Confirmable(rds, code, now)
  {
    var lapsed := LapsedAt(rds, at);
    if Confirmable(rds, code, now) {
      var rd :| rd in rds && rd.code == code && rd.status == Pending && now <= rd.expiresAt;
      var i :| 0 <= i < |rds| && rds[i] == rd;
      assert lapsed[i] == rd && lapsed[i] in lapsed;
    }
    if Confirmable(lapsed, code, now) {
      var rd :| rd in lapsed && rd.code == code && rd.status == Pending && now <= rd.expiresAt;
      var i :| 0 <= i < |lapsed| && lapsed[i] == rd;
      assert rds[i] == rd && rds[i] in rds;
    }
  }

  /** Lapsing in stages lapses the same as once at the end. */
  lemma LapseInStages(rds: seq<Redemption>, early: int, late: int)
    requires early <= late
    ensures LapsedAt(LapsedAt(rds, early), late) == LapsedAt(rds, late)
  {}
}
