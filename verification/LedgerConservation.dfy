/** Conservation over all clients of a program, up to what the floor at zero forgives. */
module LedgerConservation {
  import opened Wrappers
  import opened Clock
  import opened Ledger
  import opened LedgerBalances
  import opened LedgerCaps
  import opened LedgerExpiry
  import opened LedgerStock

  // ---------- outstanding balances ----------

  ghost function AnyKey(m: map<Account, int>): Account
    requires m != map[]
    ensures AnyKey(m) in m
  {
    assert exists a :: a in m by {
      assert m.Keys != {};
    }
    var a :| a in m;
    a
  }

  function Share(a: Account, v: int, program: Id): int {
    if a.program == program then v else 0
  }

  /** The sum of the balance rows of a program. */
  ghost function Outstanding(m: map<Account, int>, program: Id): int
    decreases |m|
  {
    if m == map[] then 0
    else
      var a := AnyKey(m);
      SmallerMap(m, a);
      Share(a, m[a], program) + Outstanding(m - {a}, program)
  }

  lemma SmallerMap(m: map<Account, int>, a: Account)
    requires a in m
    ensures |m - {a}| < |m|
  {
    assert (m - {a}).Keys == m.Keys - {a};
    assert |(m - {a}).Keys| == |m.Keys| - 1;
  }

  /** Any row can be counted first. */
  lemma {:induction false} OutstandingWithout(m: map<Account, int>, a: Account, program: Id)
    requires a in m
    ensures Outstanding(m, program) == Share(a, m[a], program) + Outstanding(m - {a}, program)
    decreases |m|
  {
    var b := AnyKey(m);
    if b != a {
      SmallerMap(m, a);
      SmallerMap(m, b);
      OutstandingWithout(m - {b}, a, program);
      OutstandingWithout(m - {a}, b, program);
      assert m - {b} - {a} == m - {a} - {b};
    }
  }

  lemma OutstandingUpdate(m: map<Account, int>, a: Account, v: int, program: Id)
    ensures Outstanding(m[a := v], program) ==
      Outstanding(m, program) + Share(a, v - if a in m then m[a] else 0, program)
  {
    OutstandingWithout(m[a := v], a, program);
    if a in m {
      OutstandingWithout(m, a, program);
      assert m[a := v] - {a} == m - {a};
    } else {
      assert m[a := v] - {a} == m;
    }
  }

  // ---------- what the floor forgives ----------

  /** The balance_after of an account's last row, zero if it has none. */
  function LastAfter(log: seq<Transaction>, a: Account): int {
    if log == [] then 0
    else if log[|log| - 1].account == a then log[|log| - 1].balanceAfter
    else LastAfter(log[..|log| - 1], a)
  }

  /** What the floor cuts off when an amount is added to a balance. */
  function CutOff(before: int, amount: int): nat {
    if before + amount < 0 then -(before + amount) else 0
  }

  /**
   What the floor has cut off in the program: by how much each amount would have taken the balance
   before it below zero.
   */
  function Forgiven(log: seq<Transaction>, program: Id): int {
    if log == [] then 0
    else
      var (init, t) := (log[..|log| - 1], log[|log| - 1]);
      Forgiven(init, program) + Share(t.account, CutOff(LastAfter(init, t.account), t.amount), program)
  }

  function InProgram(program: Id): Transaction -> bool {
    (t: Transaction) => t.account.program == program
  }

  function OfKind(program: Id, k: Kind): Transaction -> bool {
    (t: Transaction) => t.account.program == program && t.kind == k
  }

  function Spent(rds: seq<Redemption>, program: Id): int {
    if rds == [] then 0
    else Spent(rds[..|rds| - 1], program) + Share(rds[|rds| - 1].account, rds[|rds| - 1].amountSpent, program)
  }

  ghost predicate Tracked(s: Tables) {
    forall a :: Balance(s, a) == LastAfter(s.log, a)
  }

  ghost predicate Conserved(s: Tables, program: Id) {
    Tracked(s) && Outstanding(s.balances, program) == Total(s.log, InProgram(program)) + Forgiven(s.log, program)
  }

  lemma PostConserves(s: Tables, t: Transaction, program: Id)
    requires Conserved(s, program)
    ensures Conserved(Post(s, t), program)
    ensures Forgiven(Post(s, t).log, program) >= Forgiven(s.log, program)
  {
    var s' := Post(s, t);
    var row := s'.log[|s.log|];
    assert s'.log[..|s'.log| - 1] == s.log;
    forall a ensures Balance(s', a) == LastAfter(s'.log, a) {
      assert Balance(s, a) == LastAfter(s.log, a);
    }
    assert Balance(s, t.account) == LastAfter(s.log, t.account);
    OutstandingUpdate(s.balances, t.account, row.balanceAfter, program);
    TotalSnoc(s.log, row, InProgram(program));
  }

  lemma ConservedFrame(s: Tables, s': Tables, program: Id)
    requires Conserved(s, program) && s'.balances == s.balances && s'.log == s.log
    ensures Conserved(s', program)
  {
    forall a ensures Balance(s', a) == LastAfter(s'.log, a) {
      assert Balance(s, a) == LastAfter(s.log, a);
    }
  }

  lemma {:induction false} ExpireConserves(
    schema: Schema, s: Tables, a: Account, rows: seq<Transaction>, ids: seq<Id>, now: int, program: Id)
    requires Conserved(s, program) && |rows| == |ids| && (a in s.balances || rows == [])
    ensures var r := ExpireAll(schema, s, a, rows, ids, now);
      r.Ok? ==> Conserved(r.value, program) && (a in s.balances ==> a in r.value.balances)
                && Forgiven(r.value.log, program) >= Forgiven(s.log, program)
  {
    if rows != [] {
      var n := |rows| - 1;
      ExpireConserves(schema, s, a, rows[..n], ids[..n], now, program);
      var r := ExpireAll(schema, s, a, rows[..n], ids[..n], now);
      if r.Ok? {
        PostConserves(r.value, Row(ids[n], a, Expiration, -rows[n].amount, now).(expires := Some(rows[n].id)), program);
      }
    }
  }

  lemma StepConserves(schema: Schema, s: Tables, e: Event, program: Id)
    requires Conserved(s, program) && Sound(s) && Enabled(s, e)
    ensures var s' := After(schema, s, e.op, e.now);
      Conserved(s', program) && Forgiven(s'.log, program) >= Forgiven(s.log, program)
  {
    var r := Step(schema, s, e.op, e.now);
    if r.Ok? && e.op.ExpireTx? {
      EnabledRows(s, e);
      ExpireConserves(schema, s, e.op.account, e.op.rows, e.op.ids, e.now, program);
    } else if r.Ok? {
      StepPosts(schema, s, e.op, e.now);
      var t := NewRow(s, e.op, e.now);
      if t.Some? {
        PostConserves(s, t.value, program);
      }
      ConservedFrame(if t.Some? then Post(s, t.value) else s, r.value, program);
    }
  }

  lemma {:induction false} RunConserves(schema: Schema, run: seq<Event>, program: Id)
    requires IsRun(schema, run)
    ensures Conserved(State(schema, run), program)
  {
    if run != [] {
      var before := run[..|run| - 1];
      RunConserves(schema, before, program);
      RunSound(schema, before);
      StepConserves(schema, State(schema, before), run[|run| - 1], program);
    }
  }

  /** The forgiven amount never decreases along a run. */
  lemma {:induction false} ForgivenNeverDecreases(schema: Schema, run: seq<Event>, k: nat, program: Id)
    requires IsRun(schema, run) && k <= |run|
    ensures IsRun(schema, run[..k])
    ensures Forgiven(State(schema, run[..k]).log, program) <= Forgiven(State(schema, run).log, program)
  {
    if k == |run| {
      assert run[..k] == run;
    } else {
      var before := run[..|run| - 1];
      ForgivenNeverDecreases(schema, before, k, program);
      assert before[..k] == run[..k];
      RunConserves(schema, before, program);
      RunSound(schema, before);
      StepConserves(schema, State(schema, before), run[|run| - 1], program);
    }
  }

  // ---------- by kind ----------

  lemma {:induction false} TotalByKind(log: seq<Transaction>, program: Id)
    ensures Total(log, InProgram(program)) ==
      Total(log, OfKind(program, Earn)) + Total(log, OfKind(program, Burn))
      + Total(log, OfKind(program, Adjustment)) + Total(log, OfKind(program, Expiration))
  {
    if log != [] {
      TotalByKind(log[..|log| - 1], program);
    }
  }

  lemma {:induction false} BurnTotal(log: seq<Transaction>, program: Id)
    ensures Total(log, OfKind(program, Burn)) == Total(Burns(log), InProgram(program))
  {
    if log != [] {
      var (init, t) := (log[..|log| - 1], log[|log| - 1]);
      BurnTotal(init, program);
      TotalSnoc(Burns(init), t, InProgram(program));
      assert Burns(init) + [] == Burns(init);
    }
  }

  lemma {:induction false} SpentIsBurned(burns: seq<Transaction>, rds: seq<Redemption>, program: Id)
    requires |burns| == |rds|
    requires forall i :: 0 <= i < |rds| ==> burns[i].account == rds[i].account && burns[i].amount == -rds[i].amountSpent
    ensures Total(burns, InProgram(program)) == -Spent(rds, program)
  {
    if rds != [] {
      SpentIsBurned(burns[..|burns| - 1], rds[..|rds| - 1], program);
    }
  }

  /**
   What a program's clients hold is what was earned and adjusted, less what redemptions of
   every status spent, less the nominal expirations, plus the forgiven amount, which is
   never negative.
   */
  lemma Conservation(schema: Schema, run: seq<Event>, program: Id)
    requires IsRun(schema, run)
    ensures var s := State(schema, run);
      && Outstanding(s.balances, program) ==
         Total(s.log, OfKind(program, Earn)) + Total(s.log, OfKind(program, Adjustment))
         - Spent(s.redemptions, program) + Total(s.log, OfKind(program, Expiration)) + Forgiven(s.log, program)
      && Forgiven(s.log, program) >= 0
  {
    var s := State(schema, run);
    RunConserves(schema, run, program);
    TotalByKind(s.log, program);
    BurnTotal(s.log, program);
    RunKeepsStock(schema, run);
    SpentIsBurned(Burns(s.log), s.redemptions, program);
    ForgivenNeverDecreases(schema, run, 0, program);
  }
}
