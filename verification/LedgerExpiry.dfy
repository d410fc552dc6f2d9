/**
 Lazy expiry over whole runs: its exact effect whatever the row order, each earn expired at
 most once, and expiring in stages the same as expiring once.
 */
module LedgerExpiry {
  import opened Wrappers
  import opened Clock
  import opened Ledger
  import opened LedgerBalances
  import opened LedgerCaps

  function Any(): Transaction -> bool {
    (t: Transaction) => true
  }

  function Due(log: seq<Transaction>, a: Account, cutoff: int): Transaction -> bool {
    (t: Transaction) => IsDue(log, t, a, cutoff)
  }

  /** What expiring at the cutoff would deduct, read off the log. */
  function DueAmount(log: seq<Transaction>, a: Account, cutoff: int): int {
    Total(log, Due(log, a, cutoff))
  }

  // ---------- sums do not see the order ----------

  lemma {:induction false} TotalConcat(xs: seq<Transaction>, ys: seq<Transaction>, p: Transaction -> bool)
    ensures Total(xs + ys, p) == Total(xs, p) + Total(ys, p)
  {
    if ys == [] {
      assert xs + ys == xs;
    } else {
      assert (xs + ys)[..|xs + ys| - 1] == xs + ys[..|ys| - 1];
      TotalConcat(xs, ys[..|ys| - 1], p);
    }
  }

  lemma TotalAround(xs: seq<Transaction>, t: Transaction, ys: seq<Transaction>, p: Transaction -> bool)
    ensures Total(xs + [t] + ys, p) == Total(xs + ys, p) + if p(t) then t.amount else 0
  {
    TotalConcat(xs + [t], ys, p);
    TotalSnoc(xs, t, p);
    TotalConcat(xs, ys, p);
  }

  lemma MultisetWithout<T>(ys: seq<T>, i: nat)
    requires i < |ys|
    ensures multiset(ys[..i] + ys[i + 1..]) == multiset(ys) - multiset{ys[i]}
  {
    assert ys == ys[..i] + [ys[i]] + ys[i + 1..];
  }

  lemma SplitOff<T>(ys: seq<T>, t: T) returns (l: seq<T>, r: seq<T>)
    requires t in ys
    ensures ys == l + [t] + r && multiset(l + r) == multiset(ys) - multiset{t}
  {
    var i :| 0 <= i < |ys| && ys[i] == t;
    l, r := ys[..i], ys[i + 1..];
    MultisetWithout(ys, i);
    assert ys == l + [t] + r;
  }

  lemma SplitLast<T>(xs: seq<T>) returns (init: seq<T>, t: T)
    requires xs != []
    ensures xs == init + [t] && multiset(init) == multiset(xs) - multiset{t}
  {
    init, t := xs[..|xs| - 1], xs[|xs| - 1];
    assert xs == init + [t];
  }

  lemma TotalInserted(xs: seq<Transaction>, t: Transaction, l: seq<Transaction>, r: seq<Transaction>,
      p: Transaction -> bool)
    requires Total(xs, p) == Total(l + r, p)
    ensures Total(xs + [t], p) == Total(l + [t] + r, p)
  {
    TotalSnoc(xs, t, p);
    TotalAround(l, t, r, p);
  }

  lemma {:induction false} TotalPermutation(xs: seq<Transaction>, ys: seq<Transaction>, p: Transaction -> bool)
    requires multiset(xs) == multiset(ys)
    ensures Total(xs, p) == Total(ys, p)
    decreases |xs|
  {
    if xs == [] {
      assert |multiset(ys)| == |ys|;
    } else {
      var init, t := SplitLast(xs);
      assert t in multiset(ys);
      var l, r := SplitOff(ys, t);
      TotalPermutation(init, l + r, p);
      TotalInserted(init, t, l, r, p);
    }
  }

  lemma {:induction false} DueTotal(log: seq<Transaction>, part: seq<Transaction>, a: Account, cutoff: int)
    ensures Total(DueIn(log, part, a, cutoff), Any()) == Total(part, Due(log, a, cutoff))
  {
    if part != [] {
      var (init, e) := (part[..|part| - 1], part[|part| - 1]);
      DueTotal(log, init, a, cutoff);
      TotalSnoc(DueIn(log, init, a, cutoff), e, Any());
      assert DueIn(log, init, a, cutoff) + [] == DueIn(log, init, a, cutoff);
    }
  }

  // ---------- the loop ----------

  /** The loop succeeds exactly when every row it must write is accepted. */
  ghost predicate Writable(schema: Schema, log: seq<Transaction>, ids: seq<Id>) {
    ids == [] ||
    (schema.admitsExpiration
     && (forall i :: 0 <= i < |ids| ==> !HasId(log, ids[i]))
     && (forall i, j :: 0 <= i < j < |ids| ==> ids[i] != ids[j]))
  }

  ghost predicate IsMarker(x: Transaction, a: Account, e: Transaction, id: Id) {
    x.id == id && x.account == a && x.kind == Expiration && x.amount == -e.amount && x.expires == Some(e.id)
    && x.fingerprint == NO_FINGERPRINT && x.correctableUntil == None
  }

  /** `log'` is `log` and one marker per row. */
  ghost predicate AppendsMarkers(log: seq<Transaction>, log': seq<Transaction>, a: Account, rows: seq<Transaction>,
      ids: seq<Id>) {
    && |rows| == |ids| && log <= log' && |log'| == |log| + |rows|
    && forall i :: 0 <= i < |rows| ==> IsMarker(log'[|log| + i], a, rows[i], ids[i])
  }

  lemma TurnLog(schema: Schema, s: Tables, a: Account, e: Transaction, id: Id, now: int)
    ensures var r := ExpireOne(schema, s, a, e, id, now);
      && (r.Ok? <==> schema.admitsExpiration && !HasId(s.log, id))
      && (r.Ok? ==>
          && r.value.rewards == s.rewards && r.value.redemptions == s.redemptions
          && s.log <= r.value.log && |r.value.log| == |s.log| + 1 && IsMarker(r.value.log[|s.log|], a, e, id))
  {}

  lemma {:induction false} LoopLog(schema: Schema, s: Tables, a: Account, rows: seq<Transaction>, ids: seq<Id>,
      now: int)
    requires |rows| == |ids|
    ensures var r := ExpireAll(schema, s, a, rows, ids, now);
      && (r.Ok? <==> Writable(schema, s.log, ids))
      && (r.Ok? ==> AppendsMarkers(s.log, r.value.log, a, rows, ids)
                    && r.value.rewards == s.rewards && r.value.redemptions == s.redemptions)
  {
    if rows != [] {
      var n := |rows| - 1;
      LoopLog(schema, s, a, rows[..n], ids[..n], now);
      var r := ExpireAll(schema, s, a, rows[..n], ids[..n], now);
      WritableSnoc(schema, s.log, ids);
      if r.Ok? {
        TurnAfter(schema, s, r.value, a, rows, ids, now);
      }
    }
  }

  /** The last turn, after a loop that succeeded. */
  lemma TurnAfter(
    schema: Schema, s: Tables, mid: Tables, a: Account, rows: seq<Transaction>, ids: seq<Id>, now: int)
    requires rows != [] && |rows| == |ids|
    requires Writable(schema, s.log, ids[..|ids| - 1])
    requires AppendsMarkers(s.log, mid.log, a, rows[..|rows| - 1], ids[..|ids| - 1])
    requires mid.rewards == s.rewards && mid.redemptions == s.redemptions
    ensures var q := ExpireOne(schema, mid, a, rows[|rows| - 1], ids[|ids| - 1], now);
      && (q.Ok? <==> Writable(schema, s.log, ids))
      && (q.Ok? ==> AppendsMarkers(s.log, q.value.log, a, rows, ids)
                    && q.value.rewards == s.rewards && q.value.redemptions == s.redemptions)
  {
    var n := |rows| - 1;
    WritableSnoc(schema, s.log, ids);
    LoggedIds(s.log, mid.log, ids[..n], ids[n]);
    TurnLog(schema, mid, a, rows[n], ids[n], now);
    var q := ExpireOne(schema, mid, a, rows[n], ids[n], now);
    if q.Ok? {
      MarkersSnoc(s.log, mid.log, q.value.log, a, rows, ids);
    }
  }

  lemma MarkersSnoc(log: seq<Transaction>, mid: seq<Transaction>, log': seq<Transaction>, a: Account,
      rows: seq<Transaction>, ids: seq<Id>)
    requires rows != [] && |rows| == |ids|
    requires AppendsMarkers(log, mid, a, rows[..|rows| - 1], ids[..|ids| - 1])
    requires mid <= log' && |log'| == |mid| + 1 && IsMarker(log'[|mid|], a, rows[|rows| - 1], ids[|ids| - 1])
    ensures AppendsMarkers(log, log', a, rows, ids)
  {
    forall i | 0 <= i < |rows| ensures IsMarker(log'[|log| + i], a, rows[i], ids[i]) {
      if i < |rows| - 1 {
        assert IsMarker(mid[|log| + i], a, rows[..|rows| - 1][i], ids[..|ids| - 1][i]);
      }
    }
  }

  lemma WritableSnoc(schema: Schema, log: seq<Transaction>, ids: seq<Id>)
    requires ids != []
    ensures Writable(schema, log, ids) <==>
      schema.admitsExpiration && Writable(schema, log, ids[..|ids| - 1])
      && !HasId(log, ids[|ids| - 1]) && ids[|ids| - 1] !in ids[..|ids| - 1]
  {}

  lemma TurnBalance(schema: Schema, s: Tables, a: Account, e: Transaction, id: Id, now: int, b: int)
    requires a in s.balances && s.balances[a] == b
    ensures var r := ExpireOne(schema, s, a, e, id, now); r.Ok? ==>
      r.value.balances == s.balances[a := Floor0(b - e.amount)]
  {}

  /** Deducting the rows one at a time deducts their total, floored once. */
  lemma {:induction false} LoopBalance(schema: Schema, s: Tables, a: Account, rows: seq<Transaction>, ids: seq<Id>,
      now: int)
    requires |rows| == |ids| && a in s.balances && s.balances[a] >= 0
    requires forall e <- rows :: e.amount > 0
    ensures var r := ExpireAll(schema, s, a, rows, ids, now);
      r.Ok? ==> r.value.balances == s.balances[a := Floor0(s.balances[a] - Total(rows, Any()))]
  {
    if rows != [] {
      var n := |rows| - 1;
      LoopBalance(schema, s, a, rows[..n], ids[..n], now);
      NonNegativeTotal(rows[..n]);
      var (r, left) := (ExpireAll(schema, s, a, rows[..n], ids[..n], now),
        Floor0(s.balances[a] - Total(rows[..n], Any())));
      if r.Ok? {
        TurnBalance(schema, r.value, a, rows[n], ids[n], now, left);
        assert Floor0(left - rows[n].amount) == Floor0(s.balances[a] - Total(rows, Any()));
      }
    }
  }

  lemma {:induction false} NonNegativeTotal(rows: seq<Transaction>)
    requires forall e <- rows :: e.amount > 0
    ensures Total(rows, Any()) >= 0
  {
    if rows != [] {
      assert rows[|rows| - 1] in rows;
      NonNegativeTotal(rows[..|rows| - 1]);
    }
  }

  lemma LoggedIds(log: seq<Transaction>, log': seq<Transaction>, ids: seq<Id>, id: Id)
    requires log <= log' && |log'| == |log| + |ids|
    requires forall i :: 0 <= i < |ids| ==> log'[|log| + i].id == ids[i]
    ensures HasId(log', id) <==> HasId(log, id) || id in ids
  {
    if HasId(log', id) {
      var k :| 0 <= k < |log'| && log'[k].id == id;
      if k < |log| {
        assert log[k] in log;
      } else {
        assert ids[k - |log|] == id;
      }
    }
    if HasId(log, id) {
      var t :| t in log && t.id == id;
      assert t in log';
    }
    if id in ids {
      var i :| 0 <= i < |ids| && ids[i] == id;
      assert log'[|log| + i] in log';
    }
  }

  // ---------- one expiry ----------

  /** An expiry succeeds exactly when its marker rows can be written; it touches no reward or redemption. */
  lemma ExpiryOutcome(schema: Schema, s: Tables, e: Event)
    requires e.op.ExpireTx? && Enabled(s, e)
    ensures var r := Step(schema, s, e.op, e.now);
      && (r.Ok? <==> Writable(schema, s.log, e.op.ids))
      && (r.Ok? ==> AppendsMarkers(s.log, r.value.log, e.op.account, e.op.rows, e.op.ids)
                    && r.value.rewards == s.rewards && r.value.redemptions == s.redemptions)
  {
    LoopLog(schema, s, e.op.account, e.op.rows, e.op.ids, e.now);
  }

  /** `e` is an expiry that succeeds in `s` and leads to `s'`. */
  ghost predicate ExpiresTo(schema: Schema, s: Tables, e: Event, s': Tables) {
    e.op.ExpireTx? && Enabled(s, e) && Step(schema, s, e.op, e.now) == Ok(s')
  }

  function CutoffOf(e: Event): int
    requires e.op.ExpireTx?
  {
    e.now - e.op.days * DAY
  }

  /** Whatever order its rows came in, a successful expiry takes the whole due amount, floored once. */
  lemma ExpiryBalance(schema: Schema, s: Tables, e: Event, s': Tables)
    requires ExpiresTo(schema, s, e, s') && Sound(s)
    ensures Balance(s', e.op.account) == Floor0(Balance(s, e.op.account) - DueAmount(s.log, e.op.account, CutoffOf(e)))
    ensures DueAmount(s.log, e.op.account, CutoffOf(e)) >= 0
    ensures forall b :: b != e.op.account ==> Balance(s', b) == Balance(s, b)
  {
    RowsArePositive(s, e);
    RowsTotal(s, e);
    SoundIsNonNegative(s, e.op.account);
    RowsBalance(schema, s, e, s');
  }

  lemma RowsArePositive(s: Tables, e: Event)
    requires e.op.ExpireTx? && Enabled(s, e) && Sound(s)
    ensures forall x <- e.op.rows :: x.amount > 0
    ensures e.op.account !in s.balances ==> e.op.rows == []
  {
    EnabledRows(s, e);
  }

  lemma SoundIsNonNegative(s: Tables, a: Account)
    requires Sound(s)
    ensures Balance(s, a) >= 0
  {
    assert BalancedFor(s, a);
    NonNegativeBalance(s, a);
  }

  lemma RowsBalance(schema: Schema, s: Tables, e: Event, s': Tables)
    requires ExpiresTo(schema, s, e, s') && Balance(s, e.op.account) >= 0
    requires forall x <- e.op.rows :: x.amount > 0
    requires e.op.account !in s.balances ==> e.op.rows == []
    ensures Balance(s', e.op.account) == Floor0(Balance(s, e.op.account) - Total(e.op.rows, Any()))
    ensures forall b :: b != e.op.account ==> Balance(s', b) == Balance(s, b)
  {
    if e.op.account in s.balances {
      LoopBalance(schema, s, e.op.account, e.op.rows, e.op.ids, e.now);
    }
  }

  lemma RowsTotal(s: Tables, e: Event)
    requires e.op.ExpireTx? && Enabled(s, e)
    ensures Total(e.op.rows, Any()) == DueAmount(s.log, e.op.account, CutoffOf(e)) >= 0
  {
    EnabledRows(s, e);
    NonNegativeTotal(e.op.rows);
    TotalPermutation(e.op.rows, Expiring(s.log, e.op.account, CutoffOf(e)), Any());
    DueTotal(s.log, s.log, e.op.account, CutoffOf(e));
  }

  /** A successful expiry marks exactly the due earns. */
  lemma ExpiryMarks(schema: Schema, s: Tables, e: Event, s': Tables, id: Id)
    requires ExpiresTo(schema, s, e, s')
    ensures Marked(s'.log, id) <==>
      Marked(s.log, id) || exists x <- s.log :: IsDue(s.log, x, e.op.account, CutoffOf(e)) && x.id == id
  {
    ExpiryOutcome(schema, s, e);
    EnabledRows(s, e);
    MarkedAfter(s.log, s'.log, e.op.account, e.op.rows, e.op.ids, id);
  }

  lemma NonNegativeBalance(s: Tables, a: Account)
    requires BalancedFor(s, a)
    ensures Balance(s, a) >= 0
  {
    var xs := Amounts(s.log, a);
    assert a in s.balances ==> SuffixSum(xs, |xs|) <= s.balances[a];
  }

  lemma MarkedAfter(log: seq<Transaction>, log': seq<Transaction>, a: Account, rows: seq<Transaction>, ids: seq<Id>,
      id: Id)
    requires AppendsMarkers(log, log', a, rows, ids)
    ensures Marked(log', id) <==> Marked(log, id) || exists e <- rows :: e.id == id
  {
    if Marked(log', id) {
      var k :| 0 <= k < |log'| && log'[k].kind == Expiration && log'[k].expires == Some(id);
      if k < |log| {
        assert log[k] in log;
      } else {
        assert IsMarker(log'[|log| + (k - |log|)], a, rows[k - |log|], ids[k - |log|]);
        assert rows[k - |log|] in rows;
      }
    }
    if Marked(log, id) {
      var t :| t in log && t.kind == Expiration && t.expires == Some(id);
      assert t in log';
    }
    if exists e <- rows :: e.id == id {
      var i :| 0 <= i < |rows| && rows[i].id == id;
      assert IsMarker(log'[|log| + i], a, rows[i], ids[i]) && log'[|log| + i] in log';
    }
  }

  /** The earn-burn table refuses expiration rows, so an expiry there fails exactly when something is due. */
  lemma EarnBurnNeverExpires(s: Tables, e: Event)
    requires e.op.ExpireTx? && Enabled(s, e)
    ensures Step(EARN_BURN, s, e.op, e.now).Err? <==>
      exists x <- s.log :: IsDue(s.log, x, e.op.account, e.now - e.op.days * DAY)
    ensures After(EARN_BURN, s, e.op, e.now) == s
  {
    EnabledRows(s, e);
    EarnBurnLoopFails(s, e.op.account, e.op.rows, e.op.ids, e.now);
    if e.op.rows != [] {
      assert e.op.rows[0] in e.op.rows;
    }
  }

  lemma {:induction false} EarnBurnLoopFails(s: Tables, a: Account, rows: seq<Transaction>, ids: seq<Id>, now: int)
    requires |rows| == |ids|
    ensures ExpireAll(EARN_BURN, s, a, rows, ids, now) == if rows == [] then Ok(s) else Err(CheckViolation)
  {
    if rows != [] {
      EarnBurnLoopFails(s, a, rows[..|rows| - 1], ids[..|ids| - 1], now);
    }
  }

  // ---------- expiring in stages ----------

  ghost predicate UniqueIds(log: seq<Transaction>) {
    forall i, j :: 0 <= i < j < |log| ==> log[i].id != log[j].id
  }

  /** After an expiry nothing older than its cutoff is due, so a second one has nothing to do. */
  lemma ExpiryIdempotent(schema: Schema, s: Tables, e: Event, s': Tables, x: Transaction)
    requires ExpiresTo(schema, s, e, s') && x in s'.log
    ensures !IsDue(s'.log, x, e.op.account, CutoffOf(e))
  {
    ExpiryOutcome(schema, s, e);
    ExpiryMarks(schema, s, e, s', x.id);
    OldOrMarker(s.log, s'.log, e.op.account, e.op.rows, e.op.ids, x);
  }

  lemma OldOrMarker(log: seq<Transaction>, log': seq<Transaction>, a: Account, rows: seq<Transaction>, ids: seq<Id>,
      x: Transaction)
    requires AppendsMarkers(log, log', a, rows, ids) && x in log'
    ensures x in log || x.kind == Expiration
  {
    var k :| 0 <= k < |log'| && log'[k] == x;
    if k < |log| {
      assert log[k] in log;
    } else {
      assert IsMarker(log'[|log| + (k - |log|)], a, rows[k - |log|], ids[k - |log|]);
    }
  }

  /** What is due later is what was due earlier plus what is due once that has been expired. */
  lemma DueSplits(log: seq<Transaction>, log': seq<Transaction>, a: Account, rows: seq<Transaction>, ids: seq<Id>,
      early: int, late: int)
    requires early <= late && UniqueIds(log) && AppendsMarkers(log, log', a, rows, ids)
    requires forall x :: x in rows <==> x in log && IsDue(log, x, a, early)
    ensures DueAmount(log, a, late) == DueAmount(log, a, early) + DueAmount(log', a, late)
  {
    var added := log'[|log|..];
    assert log' == log + added;
    TotalConcat(log, added, Due(log', a, late));
    forall x <- added ensures !IsDue(log', x, a, late) {
      var k :| 0 <= k < |added| && added[k] == x;
      assert IsMarker(log'[|log| + k], a, rows[k], ids[k]);
    }
    TotalNone(added, Due(log', a, late));
    forall x <- log
      ensures IsDue(log, x, a, late) <==> IsDue(log, x, a, early) || IsDue(log', x, a, late)
      ensures !(IsDue(log, x, a, early) && IsDue(log', x, a, late))
    {
      DueOnce(log, log', a, rows, ids, early, late, x);
    }
    TotalDisjoint(log, Due(log, a, late), Due(log, a, early), Due(log', a, late));
  }

  lemma DueOnce(log: seq<Transaction>, log': seq<Transaction>, a: Account, rows: seq<Transaction>, ids: seq<Id>,
      early: int, late: int, x: Transaction)
    requires early <= late && UniqueIds(log) && AppendsMarkers(log, log', a, rows, ids) && x in log
    requires forall y :: y in rows <==> y in log && IsDue(log, y, a, early)
    ensures IsDue(log, x, a, late) <==> IsDue(log, x, a, early) || IsDue(log', x, a, late)
    ensures !(IsDue(log, x, a, early) && IsDue(log', x, a, late))
  {
    MarkedAfter(log, log', a, rows, ids, x.id);
    if exists e <- rows :: e.id == x.id {
      var e :| e in rows && e.id == x.id;
      var i, j :| 0 <= i < |log| && 0 <= j < |log| && log[i] == e && log[j] == x;
      assert e == x;
    }
  }

  lemma {:induction false} TotalNone(log: seq<Transaction>, p: Transaction -> bool)
    requires forall t <- log :: !p(t)
    ensures Total(log, p) == 0
  {
    if log != [] {
      assert log[|log| - 1] in log;
      TotalNone(log[..|log| - 1], p);
    }
  }

  lemma {:induction false} TotalDisjoint(log: seq<Transaction>, p: Transaction -> bool, q: Transaction -> bool,
      r: Transaction -> bool)
    requires forall t <- log :: (p(t) <==> q(t) || r(t)) && !(q(t) && r(t))
    ensures Total(log, p) == Total(log, q) + Total(log, r)
  {
    if log != [] {
      assert log[|log| - 1] in log;
      TotalDisjoint(log[..|log| - 1], p, q, r);
    }
  }

  /**
   Expiring at one time and then later, with nothing in between, leaves the balances and the
   marks of expiring once at the later time.
   */
  lemma StagedExpiry(schema: Schema, s: Tables, first: Event, s1: Tables, second: Event, s2: Tables, once: Event,
      t: Tables)
    requires ExpiresTo(schema, s, first, s1) && ExpiresTo(schema, s1, second, s2) && ExpiresTo(schema, s, once, t)
    requires first.op.account == second.op.account == once.op.account
    requires CutoffOf(first) <= CutoffOf(second) == CutoffOf(once)
    requires Sound(s) && UniqueIds(s.log)
    ensures forall b :: Balance(s2, b) == Balance(t, b)
    ensures forall id :: Marked(s2.log, id) <==> Marked(t.log, id)
  {
    StagedBalances(schema, s, first, s1, second, s2, once, t);
    forall id ensures Marked(s2.log, id) <==> Marked(t.log, id) {
      StagedMarks(schema, s, first, s1, second, s2, once, t, id);
    }
  }

  lemma StagedBalances(schema: Schema, s: Tables, first: Event, s1: Tables, second: Event, s2: Tables, once: Event,
      t: Tables)
    requires ExpiresTo(schema, s, first, s1) && ExpiresTo(schema, s1, second, s2) && ExpiresTo(schema, s, once, t)
    requires first.op.account == second.op.account == once.op.account
    requires CutoffOf(first) <= CutoffOf(second) == CutoffOf(once)
    requires Sound(s) && UniqueIds(s.log)
    ensures forall b :: Balance(s2, b) == Balance(t, b)
  {
    assert Sound(s1) by { StepSound(schema, s, first); }
    StagedDue(schema, s, first, s1, CutoffOf(second));
    ExpiryBalance(schema, s, first, s1);
    ExpiryBalance(schema, s1, second, s2);
    ExpiryBalance(schema, s, once, t);
  }

  lemma StagedDue(schema: Schema, s: Tables, first: Event, s1: Tables, late: int)
    requires ExpiresTo(schema, s, first, s1) && CutoffOf(first) <= late && UniqueIds(s.log)
    ensures var a := first.op.account;
      DueAmount(s.log, a, late) == DueAmount(s.log, a, CutoffOf(first)) + DueAmount(s1.log, a, late)
  {
    ExpiryOutcome(schema, s, first);
    EnabledRows(s, first);
    DueSplits(s.log, s1.log, first.op.account, first.op.rows, first.op.ids, CutoffOf(first), late);
  }

  lemma StagedMarks(
    schema: Schema, s: Tables, first: Event, s1: Tables, second: Event, s2: Tables, once: Event, t: Tables, id: Id)
    requires ExpiresTo(schema, s, first, s1) && ExpiresTo(schema, s1, second, s2) && ExpiresTo(schema, s, once, t)
    requires first.op.account == second.op.account == once.op.account
    requires CutoffOf(first) <= CutoffOf(second) == CutoffOf(once)
    ensures Marked(s2.log, id) <==> Marked(t.log, id)
  {
    ExpiryOutcome(schema, s, first);
    ExpiryMarks(schema, s, first, s1, id);
    ExpiryMarks(schema, s1, second, s2, id);
    ExpiryMarks(schema, s, once, t, id);
    var (a, late) := (first.op.account, CutoffOf(second));
    if x :| x in s1.log && IsDue(s1.log, x, a, late) && x.id == id {
      OldOrMarker(s.log, s1.log, a, first.op.rows, first.op.ids, x);
      assert !Marked(s.log, id);
    }
    if x :| x in s.log && IsDue(s.log, x, a, late) && x.id == id && !Marked(s1.log, id) {
      assert x in s1.log && IsDue(s1.log, x, a, late);
    }
  }
}
