/**
 What a stored balance is after any run: the largest suffix sum of the account's logged
 amounts, that is their plain sum plus what the floor at zero has forgiven.
 */
module LedgerBalances {
  import opened Wrappers
  import opened Clock
  import opened Ledger

  function Sum(xs: seq<int>): int {
    if xs == [] then 0 else Sum(xs[..|xs| - 1]) + xs[|xs| - 1]
  }

  /** The sum from position `k` on. */
  function SuffixSum(xs: seq<int>, k: nat): int
    requires k <= |xs|
    decreases |xs| - k
  {
    if k == |xs| then 0 else xs[k] + SuffixSum(xs, k + 1)
  }

  /** The sum before position `k`. */
  function PrefixSum(xs: seq<int>, k: nat): int
    requires k <= |xs|
  {
    if k == 0 then 0 else PrefixSum(xs, k - 1) + xs[k - 1]
  }

  ghost predicate IsLargestSuffixSum(xs: seq<int>, b: int) {
    && (forall k :: 0 <= k <= |xs| ==> SuffixSum(xs, k) <= b)
    && (exists k :: 0 <= k <= |xs| && SuffixSum(xs, k) == b)
  }

  ghost predicate IsLowestPrefixSum(xs: seq<int>, m: int) {
    && (forall k :: 0 <= k <= |xs| ==> m <= PrefixSum(xs, k))
    && (exists k :: 0 <= k <= |xs| && m == PrefixSum(xs, k))
  }

  /** The excess over the plain sum is minus the lowest prefix sum. */
  lemma LargestSuffixLowestPrefix(xs: seq<int>, b: int)
    ensures IsLargestSuffixSum(xs, b) <==> IsLowestPrefixSum(xs, Sum(xs) - b)
  {
    SuffixGivesPrefix(xs, b);
    PrefixGivesSuffix(xs, b);
  }

  lemma SuffixGivesPrefix(xs: seq<int>, b: int)
    ensures IsLargestSuffixSum(xs, b) ==> IsLowestPrefixSum(xs, Sum(xs) - b)
  {
    if IsLargestSuffixSum(xs, b) {
      var k :| 0 <= k <= |xs| && SuffixSum(xs, k) == b;
      SumSplit(xs, k);
      forall j | 0 <= j <= |xs| ensures Sum(xs) - b <= PrefixSum(xs, j) { SumSplit(xs, j); }
    }
  }

  lemma PrefixGivesSuffix(xs: seq<int>, b: int)
    ensures IsLowestPrefixSum(xs, Sum(xs) - b) ==> IsLargestSuffixSum(xs, b)
  {
    if IsLowestPrefixSum(xs, Sum(xs) - b) {
      var k :| 0 <= k <= |xs| && Sum(xs) - b == PrefixSum(xs, k);
      SumSplit(xs, k);
      forall j | 0 <= j <= |xs| ensures SuffixSum(xs, j) <= b { SumSplit(xs, j); }
    }
  }

  lemma {:induction false} PrefixIsSum(xs: seq<int>, k: nat)
    requires k <= |xs|
    ensures PrefixSum(xs, k) == Sum(xs[..k])
  {
    if k > 0 {
      PrefixIsSum(xs, k - 1);
      assert xs[..k][..k - 1] == xs[..k - 1];
    }
  }

  lemma {:induction false} SumSplit(xs: seq<int>, k: nat)
    requires k <= |xs|
    ensures Sum(xs) == PrefixSum(xs, k) + SuffixSum(xs, k)
    decreases |xs| - k
  {
    if k == |xs| {
      PrefixIsSum(xs, k);
      assert xs[..k] == xs;
    } else {
      SumSplit(xs, k + 1);
    }
  }

  lemma {:induction false} SuffixSnoc(xs: seq<int>, x: int, k: nat)
    requires k <= |xs|
    ensures SuffixSum(xs + [x], k) == SuffixSum(xs, k) + x
    decreases |xs| - k
  {
    if k == |xs| {
      assert SuffixSum(xs + [x], |xs| + 1) == 0;
    } else {
      SuffixSnoc(xs, x, k + 1);
    }
  }

  lemma LargestSuffixUnique(xs: seq<int>, b: int, c: int)
    requires IsLargestSuffixSum(xs, b) && IsLargestSuffixSum(xs, c)
    ensures b == c
  {}

  /** Adding one amount, floored at zero, moves the largest suffix sum along. */
  lemma LargestSuffixSnoc(xs: seq<int>, b: int, x: int)
    requires IsLargestSuffixSum(xs, b)
    ensures IsLargestSuffixSum(xs + [x], Floor0(b + x))
  {
    var ys := xs + [x];
    forall k | 0 <= k <= |xs| ensures SuffixSum(ys, k) == SuffixSum(xs, k) + x {
      SuffixSnoc(xs, x, k);
    }
    assert SuffixSum(ys, |ys|) == 0;
    if b + x >= 0 {
      var k :| 0 <= k <= |xs| && SuffixSum(xs, k) == b;
      assert SuffixSum(ys, k) == b + x;
    }
  }

  /** The amounts of one account, oldest first. */
  function Amounts(log: seq<Transaction>, a: Account): seq<int> {
    if log == [] then []
    else
      var t := log[|log| - 1];
      Amounts(log[..|log| - 1], a) + if t.account == a then [t.amount] else []
  }

  /** The stored balance of `a` is what its log says; without a row its log is empty. */
  ghost predicate BalancedFor(s: Tables, a: Account) {
    if a in s.balances then IsLargestSuffixSum(Amounts(s.log, a), s.balances[a]) else Amounts(s.log, a) == []
  }

  /** Every logged balance_after was the balance at that moment. */
  ghost predicate HistoryHolds(s: Tables) {
    forall i :: 0 <= i < |s.log| ==>
      IsLargestSuffixSum(Amounts(s.log[..i + 1], s.log[i].account), s.log[i].balanceAfter)
  }

  ghost predicate Sound(s: Tables) {
    HistoryHolds(s) && forall a :: BalancedFor(s, a)
  }

  lemma NoAmounts()
    ensures IsLargestSuffixSum([], 0)
  {
    var none: seq<int> := [];
    assert SuffixSum(none, 0) == 0;
  }

  lemma PostBalanced(s: Tables, t: Transaction, a: Account)
    requires BalancedFor(s, a)
    ensures BalancedFor(Post(s, t), a)
  {
    var s' := Post(s, t);
    assert s'.log[..|s'.log| - 1] == s.log;
    NoAmounts();
    if t.account == a {
      LargestSuffixSnoc(Amounts(s.log, a), Balance(s, a), t.amount);
    } else {
      assert Amounts(s'.log, a) == Amounts(s.log, a);
    }
  }

  lemma PostSound(s: Tables, t: Transaction)
    requires Sound(s)
    ensures Sound(Post(s, t))
  {
    var s' := Post(s, t);
    forall a ensures BalancedFor(s', a) {
      assert BalancedFor(s, a);
      PostBalanced(s, t, a);
    }
    assert BalancedFor(s', t.account);
    forall i | 0 <= i < |s'.log|
      ensures IsLargestSuffixSum(Amounts(s'.log[..i + 1], s'.log[i].account), s'.log[i].balanceAfter)
    {
      if i < |s.log| {
        assert s'.log[..i + 1] == s.log[..i + 1];
      } else {
        assert s'.log[..i + 1] == s'.log;
      }
    }
  }

  /** Soundness speaks of balances and log only. */
  lemma SoundFrame(s: Tables, s': Tables)
    requires Sound(s) && s'.balances == s.balances && s'.log == s.log
    ensures Sound(s')
  {
    forall a ensures BalancedFor(s', a) {
      assert BalancedFor(s, a);
    }
  }

  lemma {:induction false} LoggedHasAmounts(log: seq<Transaction>, t: Transaction)
    requires t in log
    ensures Amounts(log, t.account) != []
  {
    if log[|log| - 1] != t {
      assert t in log[..|log| - 1];
      LoggedHasAmounts(log[..|log| - 1], t);
    }
  }

  lemma {:induction false} DueRows(log: seq<Transaction>, part: seq<Transaction>, a: Account, cutoff: int)
    ensures forall e :: e in DueIn(log, part, a, cutoff) <==> e in part && IsDue(log, e, a, cutoff)
  {
    if part != [] {
      DueRows(log, part[..|part| - 1], a, cutoff);
    }
  }

  /** Rows that permute the query's answer are rows of the query's answer. */
  lemma EnabledRows(s: Tables, e: Event)
    requires Enabled(s, e) && e.op.ExpireTx?
    ensures forall x :: x in e.op.rows <==> x in s.log && IsDue(s.log, x, e.op.account, e.now - e.op.days * DAY)
    ensures e.op.account !in s.balances && Sound(s) ==> e.op.rows == []
  {
    var cutoff := e.now - e.op.days * DAY;
    var answer := Expiring(s.log, e.op.account, cutoff);
    DueRows(s.log, s.log, e.op.account, cutoff);
    forall x ensures x in e.op.rows <==> x in answer {
      assert x in multiset(e.op.rows) <==> x in multiset(answer);
    }
    if e.op.rows != [] {
      LoggedHasAmounts(s.log, e.op.rows[0]);
      assert Sound(s) ==> BalancedFor(s, e.op.account);
    }
  }

  lemma {:induction false} ExpireSound(schema: Schema, s: Tables, a: Account, rows: seq<Transaction>, ids: seq<Id>,
      now: int)
    requires Sound(s) && |rows| == |ids| && (a in s.balances || rows == [])
    ensures var r := ExpireAll(schema, s, a, rows, ids, now);
      r.Ok? ==> Sound(r.value) && (a in s.balances ==> a in r.value.balances)
  {
    if rows != [] {
      var n := |rows| - 1;
      ExpireSound(schema, s, a, rows[..n], ids[..n], now);
      var r := ExpireAll(schema, s, a, rows[..n], ids[..n], now);
      if r.Ok? {
        PostSound(r.value, Row(ids[n], a, Expiration, -rows[n].amount, now).(expires := Some(rows[n].id)));
      }
    }
  }

  lemma StepSound(schema: Schema, s: Tables, e: Event)
    requires Sound(s) && Enabled(s, e)
    ensures Sound(After(schema, s, e.op, e.now))
  {
    var r := Step(schema, s, e.op, e.now);
    if r.Ok? && e.op.ExpireTx? {
      EnabledRows(s, e);
      ExpireSound(schema, s, e.op.account, e.op.rows, e.op.ids, e.now);
    } else if r.Ok? {
      StepPosts(schema, s, e.op, e.now);
      var t := NewRow(s, e.op, e.now);
      if t.Some? {
        PostSound(s, t.value);
      }
      SoundFrame(if t.Some? then Post(s, t.value) else s, r.value);
    }
  }

  lemma {:induction false} RunSound(schema: Schema, run: seq<Event>)
    requires IsRun(schema, run)
    ensures Sound(State(schema, run))
  {
    if run == [] {
      NoAmounts();
    } else {
      var before := run[..|run| - 1];
      RunSound(schema, before);
      StepSound(schema, State(schema, before), run[|run| - 1]);
    }
  }

  /**
   After any run, a client's balance is the largest suffix sum of its logged amounts: never
   negative, never below their plain sum, and above it by minus the lowest prefix sum.
   */
  lemma BalanceIsLargestSuffixSum(schema: Schema, run: seq<Event>, a: Account)
    requires IsRun(schema, run)
    ensures var s := State(schema, run);
      var b := Balance(s, a);
      && IsLargestSuffixSum(Amounts(s.log, a), b)
      && IsLowestPrefixSum(Amounts(s.log, a), Sum(Amounts(s.log, a)) - b)
      && 0 <= b && Sum(Amounts(s.log, a)) <= b
  {
    RunSound(schema, run);
    assert BalancedFor(State(schema, run), a);
    BalancedIsLargest(State(schema, run), a);
  }

  lemma BalancedIsLargest(s: Tables, a: Account)
    requires BalancedFor(s, a)
    ensures var (xs, b) := (Amounts(s.log, a), Balance(s, a));
      IsLargestSuffixSum(xs, b) && IsLowestPrefixSum(xs, Sum(xs) - b) && 0 <= b && Sum(xs) <= b
  {
    var (xs, b) := (Amounts(s.log, a), Balance(s, a));
    NoAmounts();
    LargestSuffixLowestPrefix(xs, b);
    SumSplit(xs, 0);
    assert SuffixSum(xs, |xs|) <= b && SuffixSum(xs, 0) <= b;
  }

  /** The balance is the balance_after of the account's last transaction. */
  lemma BalanceIsLastLogged(schema: Schema, run: seq<Event>, i: nat)
    requires IsRun(schema, run)
    requires i < |State(schema, run).log|
    requires var log := State(schema, run).log; forall j :: i < j < |log| ==> log[j].account != log[i].account
    ensures var s := State(schema, run);
      s.log[i].account in s.balances && s.balances[s.log[i].account] == s.log[i].balanceAfter
  {
    RunSound(schema, run);
    var s := State(schema, run);
    var a := s.log[i].account;
    OthersAddNothing(s.log, i + 1, a);
    LoggedHasAmounts(s.log, s.log[i]);
    assert BalancedFor(s, a);
    LargestSuffixUnique(Amounts(s.log, a), s.balances[a], s.log[i].balanceAfter);
  }

  lemma {:induction false} OthersAddNothing(log: seq<Transaction>, n: nat, a: Account)
    requires n <= |log| && forall j :: n <= j < |log| ==> log[j].account != a
    ensures Amounts(log, a) == Amounts(log[..n], a)
  {
    if n == |log| {
      assert log[..n] == log;
    } else {
      OthersAddNothing(log[..|log| - 1], n, a);
      assert log[..|log| - 1][..n] == log[..n];
    }
  }
}
