/**
 Lazy expiry in two parts. An expiry selects its rows without a lock and writes their markers
 later, the first deduction locking the balance row until the commit; so the writes of one are a
 single step, but other expiries may commit between its select and its writes.
 */
module ExpiryInterleaving {
  import opened Wrappers
  import opened Clock
  import opened Ledger
  import opened LedgerBalances
  import opened LedgerCaps
  import opened LedgerExpiry
  import opened LedgerUniqueness

  datatype Phase = Waiting | Holding(rows: seq<Transaction>) | Ended

  datatype Session = Session(account: Account, cutoff: int, phase: Phase)

  datatype System = System(tables: Tables, sessions: seq<Session>)

  datatype Action =
    | Begin(account: Account, cutoff: int)
    | Select(i: nat, rows: seq<Transaction>)       // the query's answer, in any order
    | Write(i: nat, ids: seq<Id>, now: int)        // all deductions and markers, committed or rolled back
    | Abort(i: nat)
    | Whole(e: Event)                              // any operation, start to end

  ghost predicate Possible(sys: System, act: Action) {
    match act
    case Begin(_, _) => true
    case Select(i, rows) =>
      && i < |sys.sessions| && sys.sessions[i].phase.Waiting?
      && multiset(rows) == multiset(Expiring(sys.tables.log, sys.sessions[i].account, sys.sessions[i].cutoff))
    case Write(i, ids, _) =>
      i < |sys.sessions| && sys.sessions[i].phase.Holding? && |ids| == |sys.sessions[i].phase.rows|
    case Abort(i) => i < |sys.sessions|
    case Whole(e) => Enabled(sys.tables, e)
  }

  function Written(s: Tables, x: Session, ids: seq<Id>, now: int): Result<Tables, Error>
    requires x.phase.Holding? && |ids| == |x.phase.rows|
  {
    ExpireAll(CASHBACK, s, x.account, x.phase.rows, ids, now)
  }

  function Moved(sys: System, i: nat, phase: Phase): System
    requires i < |sys.sessions|
  {
    sys.(sessions := sys.sessions[i := sys.sessions[i].(phase := phase)])
  }

  ghost function Next(sys: System, act: Action): System
    requires Possible(sys, act)
  {
    match act
    case Begin(a, cutoff) => sys.(sessions := sys.sessions + [Session(a, cutoff, Waiting)])
    case Select(i, rows) => Moved(sys, i, Holding(rows))
    case Write(i, ids, now) =>
      var r := Written(sys.tables, sys.sessions[i], ids, now);
      Moved(sys, i, Ended).(tables := if r.Ok? then r.value else sys.tables)
    case Abort(i) => Moved(sys, i, Ended)
    case Whole(e) => sys.(tables := After(CASHBACK, sys.tables, e.op, e.now))
  }

  // ---------- one write ----------

  /** None of the rows a session holds has been expired since it selected them. */
  ghost predicate Fresh(log: seq<Transaction>, rows: seq<Transaction>) {
    forall e <- rows :: !Marked(log, e.id)
  }

  /** What a session holds: distinct earns of its account, in the log. */
  ghost predicate Held(log: seq<Transaction>, x: Session) {
    x.phase.Holding? ==>
      && DistinctIds(x.phase.rows)
      && forall e <- x.phase.rows :: e in log && e.account == x.account && e.kind == Earn && e.amount > 0
  }

  /** A write that succeeds keeps every index exactly when all its rows are still unexpired. */
  lemma WriteKeepsIffFresh(s: Tables, x: Session, ids: seq<Id>, now: int)
    requires Indexed(s.log) && x.phase.Holding? && Held(s.log, x) && |ids| == |x.phase.rows|
    requires Written(s, x, ids, now).Ok?
    ensures var log' := Written(s, x, ids, now).value.log;
      && s.log <= log'
      && (Indexed(log') <==> Fresh(s.log, x.phase.rows))
      && (UniqueMarks(log') <==> Fresh(s.log, x.phase.rows))
  {
    var (rows, log') := (x.phase.rows, Written(s, x, ids, now).value.log);
    LoopLog(CASHBACK, s, x.account, rows, ids, now);
    if Fresh(s.log, rows) {
      MarkersIndexed(s.log, log', x.account, rows, ids);
    } else {
      MarkedTwice(s.log, log', x.account, rows, ids);
    }
  }

  lemma MarkedTwice(log: seq<Transaction>, log': seq<Transaction>, a: Account, rows: seq<Transaction>, ids: seq<Id>)
    requires AppendsMarkers(log, log', a, rows, ids) && !Fresh(log, rows)
    ensures !UniqueMarks(log')
  {
    var e :| e in rows && Marked(log, e.id);
    var i :| 0 <= i < |rows| && rows[i] == e;
    var x :| x in log && x.kind == Expiration && x.expires == Some(e.id);
    var j :| 0 <= j < |log| && log[j] == x;
    assert IsMarker(log'[|log| + i], a, rows[i], ids[i]);
    assert log'[j] == log[j];
  }

  lemma MarksOfPrefix(log: seq<Transaction>, log': seq<Transaction>)
    requires log <= log' && UniqueMarks(log')
    ensures UniqueMarks(log)
  {
    forall i, j | 0 <= i < j < |log| && log[i].kind == Expiration && log[j].kind == Expiration
      ensures log[i].expires != log[j].expires
    {
      assert log'[i] == log[i] && log'[j] == log[j];
    }
  }

  lemma LogGrows(sys: System, act: Action)
    requires Possible(sys, act)
    ensures sys.tables.log <= Next(sys, act).tables.log
  {
    if act.Write? {
      LoopLog(CASHBACK, sys.tables, sys.sessions[act.i].account, sys.sessions[act.i].phase.rows, act.ids, act.now);
    } else if act.Whole? {
      WholeGrows(sys.tables, act.e);
    }
  }

  lemma WholeGrows(s: Tables, e: Event)
    requires Enabled(s, e)
    ensures s.log <= After(CASHBACK, s, e.op, e.now).log
  {
    if e.op.ExpireTx? {
      LoopLog(CASHBACK, s, e.op.account, e.op.rows, e.op.ids, e.now);
    } else if Step(CASHBACK, s, e.op, e.now).Ok? {
      StepPosts(CASHBACK, s, e.op, e.now);
    }
  }

  // ---------- traces ----------

  ghost predicate IsTrace(acts: seq<Action>)
    decreases |acts|, 0
  {
    acts == [] || (IsTrace(acts[..|acts| - 1]) && Possible(Reach(acts[..|acts| - 1]), acts[|acts| - 1]))
  }

  ghost function Reach(acts: seq<Action>): System
    requires IsTrace(acts)
    decreases |acts|, 1
  {
    if acts == [] then System(EMPTY, []) else Next(Reach(acts[..|acts| - 1]), acts[|acts| - 1])
  }

  /** Every write of the trace that succeeded was of rows still unexpired. */
  ghost predicate AllFresh(acts: seq<Action>)
    requires IsTrace(acts)
  {
    acts == [] ||
    var (sys, act) := (Reach(acts[..|acts| - 1]), acts[|acts| - 1]);
    && AllFresh(acts[..|acts| - 1])
    && (act.Write? && Written(sys.tables, sys.sessions[act.i], act.ids, act.now).Ok? ==>
        Fresh(sys.tables.log, sys.sessions[act.i].phase.rows))
  }

  ghost predicate AllHeld(sys: System) {
    forall i :: 0 <= i < |sys.sessions| ==> Held(sys.tables.log, sys.sessions[i])
  }

  lemma SelectedAreHeld(log: seq<Transaction>, x: Session, rows: seq<Transaction>)
    requires UniqueIds(log) && multiset(rows) == multiset(Expiring(log, x.account, x.cutoff))
    ensures Held(log, x.(phase := Holding(rows)))
  {
    DueDistinct(log, log, x.account, x.cutoff);
    DistinctPermutation(Expiring(log, x.account, x.cutoff), rows);
    DueRows(log, log, x.account, x.cutoff);
    forall e <- rows ensures e in Expiring(log, x.account, x.cutoff) {
      assert e in multiset(rows);
    }
  }

  lemma HeldLater(log: seq<Transaction>, log': seq<Transaction>, x: Session)
    requires Held(log, x) && log <= log'
    ensures Held(log', x)
  {
    if x.phase.Holding? {
      forall e <- x.phase.rows ensures e in log' {
        var k :| 0 <= k < |log| && log[k] == e;
        assert log'[k] == e;
      }
    }
  }

  lemma NextKeepsHeld(sys: System, act: Action)
    requires AllHeld(sys) && Possible(sys, act) && UniqueIds(sys.tables.log)
    ensures AllHeld(Next(sys, act))
  {
    var sys' := Next(sys, act);
    LogGrows(sys, act);
    forall i | 0 <= i < |sys'.sessions| ensures Held(sys'.tables.log, sys'.sessions[i]) {
      if act.Select? && i == act.i {
        SelectedAreHeld(sys.tables.log, sys.sessions[i], act.rows);
      } else if i < |sys.sessions| {
        HeldLater(sys.tables.log, sys'.tables.log, sys.sessions[i]);
      }
    }
  }

  lemma {:induction false} FreshKeepsIndexed(acts: seq<Action>)
    requires IsTrace(acts) && AllFresh(acts)
    ensures Indexed(Reach(acts).tables.log) && AllHeld(Reach(acts))
  {
    if acts != [] {
      var (before, act) := (acts[..|acts| - 1], acts[|acts| - 1]);
      var sys := Reach(before);
      FreshKeepsIndexed(before);
      NextKeepsHeld(sys, act);
      if act.Whole? {
        StepIndexed(CASHBACK, sys.tables, act.e);
      } else if act.Write? && Written(sys.tables, sys.sessions[act.i], act.ids, act.now).Ok? {
        WriteKeepsIffFresh(sys.tables, sys.sessions[act.i], act.ids, act.now);
      }
    }
  }

  /**
   In any interleaving each earn is expired at most once exactly when every expiry that commits
   finds all the rows it selected still unexpired: no index of the table ensures it.
   */
  lemma {:induction false} ExpiresOnceIffFresh(acts: seq<Action>)
    requires IsTrace(acts)
    ensures UniqueMarks(Reach(acts).tables.log) <==> AllFresh(acts)
  {
    if acts != [] {
      var (before, act) := (acts[..|acts| - 1], acts[|acts| - 1]);
      var sys := Reach(before);
      ExpiresOnceIffFresh(before);
      if AllFresh(before) {
        LastIffFresh(acts);
      } else if UniqueMarks(Reach(acts).tables.log) {
        LogGrows(sys, act);
        MarksOfPrefix(sys.tables.log, Reach(acts).tables.log);
      }
    }
  }

  lemma LastIffFresh(acts: seq<Action>)
    requires acts != [] && IsTrace(acts) && AllFresh(acts[..|acts| - 1])
    ensures UniqueMarks(Reach(acts).tables.log) <==> AllFresh(acts)
  {
    var (sys, act) := (Reach(acts[..|acts| - 1]), acts[|acts| - 1]);
    FreshKeepsIndexed(acts[..|acts| - 1]);
    if AllFresh(acts) {
      FreshKeepsIndexed(acts);
    } else {
      WriteKeepsIffFresh(sys.tables, sys.sessions[act.i], act.ids, act.now);
    }
  }

  // ---------- two expiries at once ----------

  lemma TraceSnoc(acts: seq<Action>, act: Action)
    requires IsTrace(acts) && Possible(Reach(acts), act)
    ensures IsTrace(acts + [act]) && Reach(acts + [act]) == Next(Reach(acts), act)
  {
    assert (acts + [act])[..|acts + [act]| - 1] == acts;
  }

  /** Two expiries that select the same rows, whatever came before, and are about to write. */
  lemma BothSelect(acts: seq<Action>, a: Account, cutoff: int, rows: seq<Transaction>) returns (both: seq<Action>)
    requires IsTrace(acts) && multiset(rows) == multiset(Expiring(Reach(acts).tables.log, a, cutoff))
    ensures IsTrace(both)
    ensures var (sys, x) := (Reach(acts), Session(a, cutoff, Holding(rows)));
      Reach(both) == System(sys.tables, sys.sessions + [x, x])
  {
    var (sys, n) := (Reach(acts), |Reach(acts).sessions|);
    var (x0, x) := (Session(a, cutoff, Waiting), Session(a, cutoff, Holding(rows)));
    TraceSnoc(acts, Begin(a, cutoff));
    both := acts + [Begin(a, cutoff)];
    TraceSnoc(both, Begin(a, cutoff));
    both := both + [Begin(a, cutoff)];
    assert Reach(both).sessions == sys.sessions + [x0, x0];
    TraceSnoc(both, Select(n, rows));
    both := both + [Select(n, rows)];
    assert Reach(both).sessions == sys.sessions + [x, x0];
    TraceSnoc(both, Select(n + 1, rows));
    both := both + [Select(n + 1, rows)];
    assert Reach(both).sessions == sys.sessions + [x, x];
  }

  /** The session's writes succeed, and lead from one state to the other. */
  ghost predicate WritesTo(s: Tables, x: Session, ids: seq<Id>, now: int, s': Tables) {
    && x.phase.Holding? && |ids| == |x.phase.rows| && Written(s, x, ids, now) == Ok(s')
    && AppendsMarkers(s.log, s'.log, x.account, x.phase.rows, ids)
  }

  /** What is left of a balance after an expiry of the rows. */
  function Left(b: int, rows: seq<Transaction>): int {
    Floor0(b - Total(rows, Any()))
  }

  /** Both succeed under new identifiers, and the total due is taken twice, each time down to zero at most. */
  lemma TwoExpiriesTakeTwice(
    acts: seq<Action>, a: Account, cutoff: int, rows: seq<Transaction>, ids: seq<Id>, ids': seq<Id>, now: int)
    returns (both: seq<Action>)
    requires IsTrace(acts) && AllFresh(acts) && rows != [] && |ids| == |ids'| == |rows|
    requires multiset(rows) == multiset(Expiring(Reach(acts).tables.log, a, cutoff))
    requires a in Reach(acts).tables.balances && Reach(acts).tables.balances[a] >= 0
    requires Writable(CASHBACK, Reach(acts).tables.log, ids + ids')
    ensures IsTrace(both) && !UniqueMarks(Reach(both).tables.log)
    ensures Balance(Reach(both).tables, a) == Left(Left(Reach(acts).tables.balances[a], rows), rows)
  {
    var (s, x) := (Reach(acts).tables, Session(a, cutoff, Holding(rows)));
    DueAreHeld(acts, a, cutoff, rows);
    var s1, s2 := WriteTwice(s, x, ids, ids', now, s.balances[a]);
    TwiceMarked(s.log, s1.log, s2.log, a, rows, ids, ids');
    both := SelectAndWrite(acts, x, ids, ids', now, s1, s2);
  }

  lemma SelectAndWrite(
    acts: seq<Action>, x: Session, ids: seq<Id>, ids': seq<Id>, now: int, s1: Tables, s2: Tables)
    returns (both: seq<Action>)
    requires IsTrace(acts) && x.phase.Holding?
    requires multiset(x.phase.rows) == multiset(Expiring(Reach(acts).tables.log, x.account, x.cutoff))
    requires WritesTo(Reach(acts).tables, x, ids, now, s1) && WritesTo(s1, x, ids', now, s2)
    ensures IsTrace(both) && Reach(both).tables == s2
  {
    var n := |Reach(acts).sessions|;
    both := BothSelect(acts, x.account, x.cutoff, x.phase.rows);
    both := BothWrite(both, n, x, ids, ids', now, s1, s2);
  }

  lemma DueAreHeld(acts: seq<Action>, a: Account, cutoff: int, rows: seq<Transaction>)
    requires IsTrace(acts) && AllFresh(acts)
    requires multiset(rows) == multiset(Expiring(Reach(acts).tables.log, a, cutoff))
    ensures Held(Reach(acts).tables.log, Session(a, cutoff, Holding(rows)))
  {
    FreshKeepsIndexed(acts);
    SelectedAreHeld(Reach(acts).tables.log, Session(a, cutoff, Holding(rows)), rows);
  }

  lemma BothWrite(
    acts: seq<Action>, n: nat, x: Session, ids: seq<Id>, ids': seq<Id>, now: int, s1: Tables, s2: Tables)
    returns (both: seq<Action>)
    requires IsTrace(acts) && n + 2 == |Reach(acts).sessions|
    requires Reach(acts).sessions[n] == Reach(acts).sessions[n + 1] == x
    requires x.phase.Holding? && |ids| == |ids'| == |x.phase.rows|
    requires Written(Reach(acts).tables, x, ids, now) == Ok(s1) && Written(s1, x, ids', now) == Ok(s2)
    ensures IsTrace(both) && Reach(both).tables == s2
  {
    TraceSnoc(acts, Write(n, ids, now));
    both := acts + [Write(n, ids, now)];
    TraceSnoc(both, Write(n + 1, ids', now));
    both := both + [Write(n + 1, ids', now)];
  }

  lemma WriteTwice(s: Tables, x: Session, ids: seq<Id>, ids': seq<Id>, now: int, b: int)
      returns (s1: Tables, s2: Tables)
    requires x.phase.Holding? && |ids| == |ids'| == |x.phase.rows|
    requires Writable(CASHBACK, s.log, ids + ids') && Held(s.log, x)
    requires x.account in s.balances && s.balances[x.account] == b >= 0
    ensures WritesTo(s, x, ids, now, s1) && WritesTo(s1, x, ids', now, s2)
    ensures Balance(s2, x.account) == Left(Left(b, x.phase.rows), x.phase.rows)
  {
    FirstIsWritable(s.log, ids, ids');
    s1 := WritesAgain(s, x, ids, now, b);
    SecondIsWritable(s.log, s1.log, x.account, x.phase.rows, ids, ids');
    s2 := WritesAgain(s1, x, ids', now, Left(b, x.phase.rows));
  }

  lemma TwiceMarked(
    log: seq<Transaction>, log1: seq<Transaction>, log2: seq<Transaction>,
    a: Account, rows: seq<Transaction>, ids: seq<Id>, ids': seq<Id>)
    requires AppendsMarkers(log, log1, a, rows, ids) && AppendsMarkers(log1, log2, a, rows, ids') && rows != []
    ensures !UniqueMarks(log2)
  {
    FirstMarks(log, log1, a, rows, ids);
    MarkedTwice(log1, log2, a, rows, ids');
  }

  lemma FirstIsWritable(log: seq<Transaction>, ids: seq<Id>, ids': seq<Id>)
    requires Writable(CASHBACK, log, ids + ids')
    ensures Writable(CASHBACK, log, ids)
  {
    var all := ids + ids';
    assert forall i :: 0 <= i < |ids| ==> all[i] == ids[i];
  }

  lemma WritesAgain(s: Tables, x: Session, ids: seq<Id>, now: int, b: int) returns (s': Tables)
    requires x.phase.Holding? && |ids| == |x.phase.rows| && Writable(CASHBACK, s.log, ids)
    requires x.account in s.balances && s.balances[x.account] == b >= 0
    requires forall e <- x.phase.rows :: e.amount > 0
    ensures WritesTo(s, x, ids, now, s') && x.account in s'.balances && s'.balances[x.account] == Left(b, x.phase.rows)
  {
    LoopLog(CASHBACK, s, x.account, x.phase.rows, ids, now);
    LoopBalance(CASHBACK, s, x.account, x.phase.rows, ids, now);
    s' := Written(s, x, ids, now).value;
  }

  lemma SecondIsWritable(
    log: seq<Transaction>, log': seq<Transaction>, a: Account, rows: seq<Transaction>, ids: seq<Id>, ids': seq<Id>)
    requires Writable(CASHBACK, log, ids + ids') && AppendsMarkers(log, log', a, rows, ids)
    ensures Writable(CASHBACK, log', ids')
  {
    var all := ids + ids';
    assert forall i :: 0 <= i < |ids| ==> all[i] == ids[i];
    assert forall i :: 0 <= i < |ids'| ==> all[|ids| + i] == ids'[i];
    forall i | 0 <= i < |ids'| ensures !HasId(log', ids'[i]) {
      assert forall k :: 0 <= k < |ids| ==> IsMarker(log'[|log| + k], a, rows[k], ids[k]);
      LoggedIds(log, log', ids, ids'[i]);
      assert !HasId(log, all[|ids| + i]);
    }
  }

  lemma FirstMarks(log: seq<Transaction>, log': seq<Transaction>, a: Account, rows: seq<Transaction>, ids: seq<Id>)
    requires AppendsMarkers(log, log', a, rows, ids) && rows != []
    ensures !Fresh(log', rows)
  {
    MarkedAfter(log, log', a, rows, ids, rows[0].id);
    assert rows[0] in rows;
  }
}
