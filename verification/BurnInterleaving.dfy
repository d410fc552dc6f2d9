/**
 Burns statement by statement. Any number of sessions run the statements of a burn in any
 interleaving, each row staying locked from the statement that first writes it until its
 session ends; whole operations of the other kinds run between statements when they need no
 locked row. Every such interleaving leaves the tables of some serial run.
 */
module BurnInterleaving {
  import opened Wrappers
  import opened Ledger
  import opened LedgerBalances
  import opened LedgerExpiry
  import opened LedgerStock

  /** How far a burn has got: the last statement it has run. */
  datatype Phase = Waiting | Reserved | Deducted | Logged | Recorded | Committed | Failed

  /** `reward` and `after` are the uncommitted versions of the rows the session has written. */
  datatype Session = Session(op: Op, now: int, phase: Phase, reward: Reward, after: int)

  datatype System = System(tables: Tables, sessions: seq<Session>)

  /** How many kinds of row a session has locked: reward, balance, log key, redemption keys. */
  function Level(x: Session): nat {
    match x.phase
    case Reserved => 1
    case Deducted => 2
    case Logged => 3
    case Recorded => 4
    case _ => 0
  }

  predicate Unfinished(x: Session) {
    x.phase != Committed && x.phase != Failed
  }

  ghost predicate WellFormed(sys: System) {
    forall x <- sys.sessions :: x.op.BurnTx?
  }

  // ---------- locks ----------

  /** `y` holds what the next statement of `x` must lock. */
  predicate Blocks(y: Session, x: Session)
    requires x.op.BurnTx? && y.op.BurnTx?
  {
    match x.phase
    case Waiting => Level(y) >= 1 && y.op.rewardId == x.op.rewardId
    case Reserved => Level(y) >= 2 && y.op.account == x.op.account
    case Deducted => Level(y) >= 3 && y.op.id == x.op.id
    case Logged => Level(y) >= 4 && (y.op.redemptionId == x.op.redemptionId || y.op.code == x.op.code)
    case _ => false
  }

  ghost predicate CanAdvance(sys: System, i: nat)
    requires WellFormed(sys)
  {
    && i < |sys.sessions| && Unfinished(sys.sessions[i])
    && forall j :: 0 <= j < |sys.sessions| && j != i ==> !Blocks(sys.sessions[j], sys.sessions[i])
  }

  /** What a whole operation would write is not locked by the session. */
  predicate Spares(op: Op, y: Session)
    requires y.op.BurnTx?
  {
    match op
    case AddTx(id, a, _, _, _, _) => (Level(y) >= 2 ==> y.op.account != a) && (Level(y) >= 3 ==> y.op.id != id)
    case AdjustTx(id, a, _, _) => (Level(y) >= 2 ==> y.op.account != a) && (Level(y) >= 3 ==> y.op.id != id)
    case ExpireTx(a, _, _, ids) => (Level(y) >= 2 ==> y.op.account != a) && (Level(y) >= 3 ==> y.op.id !in ids)
    case UpdateReward(id, _, _) => Level(y) >= 1 ==> y.op.rewardId != id
    case BurnTx(_, _, _, _, _, _, _) => false  // burns run as sessions
    case _ => true
  }

  // ---------- steps ----------

  predicate Redeems(rds: seq<Redemption>, op: Op)
    requires op.BurnTx?
  {
    exists r <- rds :: r.id == op.redemptionId || r.code == op.code
  }

  /** What committing a session writes. */
  function Commit(s: Tables, x: Session): Tables
    requires x.op.BurnTx?
  {
    Tables(s.balances[x.op.account := x.after],
           s.log + [Row(x.op.id, x.op.account, Burn, -x.op.cost, x.now).(balanceAfter := x.after)],
           s.rewards[x.op.rewardId := x.reward],
           s.redemptions + [Redemption(x.op.redemptionId, x.op.account, x.op.rewardId, x.op.code, Pending, x.op.cost,
               x.op.expiresAt)])
  }

  /** The next statement of a session, on the committed rows and its own. */
  function Statement(s: Tables, x: Session): Session
    requires x.op.BurnTx?
  {
    match x.phase
    case Waiting =>
      if x.op.rewardId in s.rewards && InStock(s.rewards[x.op.rewardId]) then
        var w := s.rewards[x.op.rewardId];
        x.(phase := Reserved, reward := w.(redeemedCount := w.redeemedCount + 1))
      else x.(phase := Failed)
    case Reserved =>
      if x.op.account in s.balances && s.balances[x.op.account] >= x.op.cost then
        x.(phase := Deducted, after := s.balances[x.op.account] - x.op.cost)
      else x.(phase := Failed)
    case Deducted => x.(phase := if HasId(s.log, x.op.id) then Failed else Logged)
    case Logged => x.(phase := if Redeems(s.redemptions, x.op) then Failed else Recorded)
    case Recorded => x.(phase := Committed)
    case _ => x
  }

  datatype Action =
    | Begin(op: Op, now: int)   // a new session
    | Advance(i: nat)           // the next statement of a session, or its commit
    | Abort(i: nat)             // a session is lost and rolled back
    | Whole(e: Event)           // an operation of another kind, start to end

  ghost predicate Possible(sys: System, act: Action)
    requires WellFormed(sys)
  {
    match act
    case Begin(op, _) => op.BurnTx?
    case Advance(i) => CanAdvance(sys, i)
    case Abort(i) => i < |sys.sessions| && Unfinished(sys.sessions[i])
    case Whole(e) => Enabled(sys.tables, e) && !e.op.BurnTx? && forall y <- sys.sessions :: Spares(e.op, y)
  }

  ghost function Next(schema: Schema, sys: System, act: Action): System
    requires WellFormed(sys) && Possible(sys, act)
  {
    match act
    case Begin(op, now) => sys.(sessions := sys.sessions + [Session(op, now, Waiting, Reward(0, None, 0), 0)])
    case Advance(i) =>
      var x := sys.sessions[i];
      System(if x.phase == Recorded then Commit(sys.tables, x) else sys.tables,
             sys.sessions[i := Statement(sys.tables, x)])
    case Abort(i) => sys.(sessions := sys.sessions[i := sys.sessions[i].(phase := Failed)])
    case Whole(e) => sys.(tables := After(schema, sys.tables, e.op, e.now))
  }

  // ---------- invariant ----------

  /** What a session read under its locks is still what is committed. */
  ghost predicate Current(s: Tables, x: Session)
    requires x.op.BurnTx?
  {
    && (Level(x) >= 1 ==>
        && x.op.rewardId in s.rewards && InStock(s.rewards[x.op.rewardId])
        && x.reward == s.rewards[x.op.rewardId].(redeemedCount := s.rewards[x.op.rewardId].redeemedCount + 1))
    && (Level(x) >= 2 ==> x.op.account in s.balances && x.after == s.balances[x.op.account] - x.op.cost && x.after >= 0)
    && (Level(x) >= 3 ==> !HasId(s.log, x.op.id))
    && (Level(x) >= 4 ==> !Redeems(s.redemptions, x.op))
  }

  /** Two sessions never hold the same row. */
  ghost predicate Apart(x: Session, y: Session)
    requires x.op.BurnTx? && y.op.BurnTx?
  {
    && (Level(x) >= 1 && Level(y) >= 1 ==> x.op.rewardId != y.op.rewardId)
    && (Level(x) >= 2 && Level(y) >= 2 ==> x.op.account != y.op.account)
    && (Level(x) >= 3 && Level(y) >= 3 ==> x.op.id != y.op.id)
    && (Level(x) >= 4 && Level(y) >= 4 ==> x.op.redemptionId != y.op.redemptionId && x.op.code != y.op.code)
  }

  ghost predicate Inv(sys: System) {
    && WellFormed(sys)
    && (forall i :: 0 <= i < |sys.sessions| ==> Current(sys.tables, sys.sessions[i]))
    && (forall i, j :: 0 <= i < |sys.sessions| && 0 <= j < |sys.sessions| && i != j ==>
      Apart(sys.sessions[i], sys.sessions[j]))
  }

  /** A session about to commit would do, as one atomic burn, exactly what its commit writes. */
  lemma CommitIsAtomicBurn(schema: Schema, s: Tables, x: Session)
    requires x.op.BurnTx? && x.phase == Recorded && Current(s, x)
    ensures Step(schema, s, x.op, x.now) == Ok(Commit(s, x))
  {}

  /** Committing one session leaves what a session apart from it has read. */
  lemma CommitKeepsCurrent(s: Tables, x: Session, y: Session)
    requires x.op.BurnTx? && y.op.BurnTx? && x.phase == Recorded && Apart(x, y) && Current(s, y)
    ensures Current(Commit(s, x), y)
  {
    var s' := Commit(s, x);
    assert HasId(s'.log, y.op.id) ==> HasId(s.log, y.op.id) || x.op.id == y.op.id;
    assert Redeems(s'.redemptions, y.op) ==>
      Redeems(s.redemptions, y.op) || x.op.redemptionId == y.op.redemptionId || x.op.code == y.op.code;
  }

  lemma StatementKeepsCurrent(s: Tables, x: Session)
    requires x.op.BurnTx? && Current(s, x) && x.phase != Recorded
    ensures Current(s, Statement(s, x))
  {}

  lemma StatementKeepsApart(s: Tables, x: Session, y: Session)
    requires x.op.BurnTx? && y.op.BurnTx? && Apart(x, y) && !Blocks(y, x)
    ensures Apart(Statement(s, x), y)
  {}

  /** A whole operation that spares a session's rows leaves what it has read. */
  lemma WholeKeepsCurrent(schema: Schema, s: Tables, e: Event, y: Session)
    requires y.op.BurnTx? && Current(s, y) && Enabled(s, e) && Sound(s) && !e.op.BurnTx? && Spares(e.op, y)
    ensures Current(After(schema, s, e.op, e.now), y)
  {
    var r := Step(schema, s, e.op, e.now);
    if r.Ok? {
      match e.op
      case ExpireTx(a, _, rows, ids) =>
        ExpiryOutcome(schema, s, e);
        ExpiryIds(s.log, r.value.log, a, rows, ids, y.op.id);
        ExpirySpares(schema, s, e, r.value, y.op.account);
      case AddTx(_, _, _, _, _, _) => PostKeepsCurrent(schema, s, e.op, e.now, y);
      case AdjustTx(_, _, _, _) => PostKeepsCurrent(schema, s, e.op, e.now, y);
      case ConfirmTx(_) => StatusKeepsKeys(s.redemptions, r.value.redemptions, y.op);
      case LapsePending => StatusKeepsKeys(s.redemptions, r.value.redemptions, y.op);
      case _ =>
    }
  }

  lemma PostKeepsCurrent(schema: Schema, s: Tables, op: Op, now: int, y: Session)
    requires y.op.BurnTx? && Current(s, y) && (op.AddTx? || op.AdjustTx?) && Spares(op, y)
      && Step(schema, s, op, now).Ok?
    ensures Current(Step(schema, s, op, now).value, y)
  {
    StepPosts(schema, s, op, now);
  }

  lemma StatusKeepsKeys(rds: seq<Redemption>, rds': seq<Redemption>, op: Op)
    requires op.BurnTx? && OnlyStatusDiffers(rds, rds')
    ensures Redeems(rds', op) ==> Redeems(rds, op)
  {
    if Redeems(rds', op) {
      var i :| 0 <= i < |rds'| && (rds'[i].id == op.redemptionId || rds'[i].code == op.code);
      assert rds[i] in rds;
    }
  }

  lemma ExpiryIds(log: seq<Transaction>, log': seq<Transaction>, a: Account, rows: seq<Transaction>, ids: seq<Id>,
      id: Id)
    requires AppendsMarkers(log, log', a, rows, ids)
    ensures HasId(log', id) <==> HasId(log, id) || id in ids
  {
    forall i | 0 <= i < |ids| ensures log'[|log| + i].id == ids[i] {
      assert IsMarker(log'[|log| + i], a, rows[i], ids[i]);
    }
    LoggedIds(log, log', ids, id);
  }

  /** An expiry leaves the balance rows of every other account alone. */
  lemma ExpirySpares(schema: Schema, s: Tables, e: Event, s': Tables, b: Account)
    requires ExpiresTo(schema, s, e, s') && Sound(s)
    ensures b != e.op.account ==>
      (b in s'.balances <==> b in s.balances) && (b in s.balances ==> s'.balances[b] == s.balances[b])
  {
    var a := e.op.account;
    EnabledRows(s, e);
    assert BalancedFor(s, a);
    NonNegativeBalance(s, a);
    if a in s.balances {
      LoopBalance(schema, s, a, e.op.rows, e.op.ids, e.now);
    }
  }

  lemma AdvanceKeepsInv(schema: Schema, sys: System, i: nat)
    requires Inv(sys) && CanAdvance(sys, i)
    ensures Inv(Next(schema, sys, Advance(i)))
  {
    var (x, sys') := (sys.sessions[i], Next(schema, sys, Advance(i)));
    forall j | 0 <= j < |sys'.sessions| ensures Current(sys'.tables, sys'.sessions[j]) {
      if j != i && x.phase == Recorded {
        CommitKeepsCurrent(sys.tables, x, sys.sessions[j]);
      } else if j == i && x.phase != Recorded {
        StatementKeepsCurrent(sys.tables, x);
      }
    }
    forall j | 0 <= j < |sys.sessions| && j != i
      ensures Apart(sys'.sessions[i], sys.sessions[j]) && Apart(sys.sessions[j], sys'.sessions[i])
    {
      StatementKeepsApart(sys.tables, x, sys.sessions[j]);
    }
  }

  lemma NextKeepsInv(schema: Schema, sys: System, act: Action)
    requires Inv(sys) && Sound(sys.tables) && Possible(sys, act)
    ensures Inv(Next(schema, sys, act))
  {
    match act
    case Begin(op, now) => BeginKeepsInv(schema, sys, op, now);
    case Advance(i) => AdvanceKeepsInv(schema, sys, i);
    case Abort(i) => AbortKeepsInv(schema, sys, i);
    case Whole(e) => WholeKeepsInv(schema, sys, e);
  }

  lemma BeginKeepsInv(schema: Schema, sys: System, op: Op, now: int)
    requires Inv(sys) && op.BurnTx?
    ensures Inv(Next(schema, sys, Begin(op, now)))
  {}

  lemma AbortKeepsInv(schema: Schema, sys: System, i: nat)
    requires Inv(sys) && i < |sys.sessions| && Unfinished(sys.sessions[i])
    ensures Inv(Next(schema, sys, Abort(i)))
  {}

  lemma WholeKeepsInv(schema: Schema, sys: System, e: Event)
    requires Inv(sys) && Sound(sys.tables) && Possible(sys, Whole(e))
    ensures Inv(Next(schema, sys, Whole(e)))
  {
    forall j | 0 <= j < |sys.sessions| ensures Current(Next(schema, sys, Whole(e)).tables, sys.sessions[j]) {
      WholeKeepsCurrent(schema, sys.tables, e, sys.sessions[j]);
    }
  }

  // ---------- traces ----------

  ghost predicate IsTrace(schema: Schema, acts: seq<Action>)
    decreases |acts|, 0
  {
    acts == [] ||
    var before := acts[..|acts| - 1];
    IsTrace(schema, before) && WellFormed(Reach(schema, before)) && Possible(Reach(schema, before), acts[|acts| - 1])
  }

  ghost function Reach(schema: Schema, acts: seq<Action>): System
    requires IsTrace(schema, acts)
    decreases |acts|, 1
  {
    if acts == [] then System(EMPTY, []) else Next(schema, Reach(schema, acts[..|acts| - 1]), acts[|acts| - 1])
  }

  /** The atomic operation a step amounts to: the burn it commits, or the whole operation it is. */
  ghost function Effect(sys: System, act: Action): seq<Event>
    requires WellFormed(sys) && Possible(sys, act)
  {
    match act
    case Advance(i) =>
      if sys.sessions[i].phase == Recorded then [Event(sys.sessions[i].op, sys.sessions[i].now)] else []
    case Whole(e) => [e]
    case _ => []
  }

  /** The serial run of an interleaving: burns in the order they commit, whole operations where they run. */
  ghost function Serial(schema: Schema, acts: seq<Action>): seq<Event>
    requires IsTrace(schema, acts)
  {
    if acts == [] then []
    else
      var before := acts[..|acts| - 1];
      Serial(schema, before) + Effect(Reach(schema, before), acts[|acts| - 1])
  }

  lemma RunSnoc(schema: Schema, run: seq<Event>, e: Event)
    requires IsRun(schema, run) && Enabled(State(schema, run), e)
    ensures IsRun(schema, run + [e]) && State(schema, run + [e]) == After(schema, State(schema, run), e.op, e.now)
  {
    assert (run + [e])[..|run + [e]| - 1] == run;
  }

  /** Every interleaving ends in the tables of its serial run; anything that fails or aborts leaves no trace. */
  lemma {:induction false} Serializable(schema: Schema, acts: seq<Action>)
    requires IsTrace(schema, acts)
    ensures Inv(Reach(schema, acts))
    ensures IsRun(schema, Serial(schema, acts)) && State(schema, Serial(schema, acts)) == Reach(schema, acts).tables
  {
    if acts != [] {
      var (before, act) := (acts[..|acts| - 1], acts[|acts| - 1]);
      Serializable(schema, before);
      SerialStep(schema, Serial(schema, before), Reach(schema, before), act);
    }
  }

  lemma SerialStep(schema: Schema, run: seq<Event>, sys: System, act: Action)
    requires IsRun(schema, run) && State(schema, run) == sys.tables && Inv(sys) && Possible(sys, act)
    ensures Inv(Next(schema, sys, act))
    ensures IsRun(schema, run + Effect(sys, act))
      && State(schema, run + Effect(sys, act)) == Next(schema, sys, act).tables
  {
    RunSound(schema, run);
    NextKeepsInv(schema, sys, act);
    StepIsEffect(schema, sys, act);
    var effect := Effect(sys, act);
    if effect != [] {
      RunSnoc(schema, run, effect[0]);
      assert effect == [effect[0]];
    } else {
      assert run + effect == run;
    }
  }

  lemma StepIsEffect(schema: Schema, sys: System, act: Action)
    requires Inv(sys) && Possible(sys, act)
    ensures |Effect(sys, act)| <= 1
    ensures Effect(sys, act) == [] ==> Next(schema, sys, act).tables == sys.tables
    ensures Effect(sys, act) != [] ==>
      var e := Effect(sys, act)[0];
      Enabled(sys.tables, e) && Next(schema, sys, act).tables == After(schema, sys.tables, e.op, e.now)
  {
    if act.Advance? && sys.sessions[act.i].phase == Recorded {
      CommitIsAtomicBurn(schema, sys.tables, sys.sessions[act.i]);
    }
  }

  /** No interleaving of burns oversells a reward or loses count of its redemptions. */
  lemma NoOversellInterleaved(schema: Schema, acts: seq<Action>, id: Id)
    requires IsTrace(schema, acts) && id in Reach(schema, acts).tables.rewards
    ensures var s := Reach(schema, acts).tables;
      && s.rewards[id].redeemedCount == Redeemed(s.redemptions, id)
      && (s.rewards[id].stockTotal.Some? ==> Redeemed(s.redemptions, id) <= s.rewards[id].stockTotal.value)
      && Matched(s.log, s.redemptions)
  {
    Serializable(schema, acts);
    RunKeepsStock(schema, Serial(schema, acts));
  }

  // ---------- progress ----------

  /** The unfinished session that has locked the most. */
  lemma {:induction false} FurthestSession(xs: seq<Session>) returns (i: nat)
    requires exists x <- xs :: Unfinished(x)
    ensures i < |xs| && Unfinished(xs[i])
    ensures forall j :: 0 <= j < |xs| && Unfinished(xs[j]) ==> Level(xs[j]) <= Level(xs[i])
  {
    var n := |xs| - 1;
    assert forall j :: 0 <= j < n ==> xs[j] == xs[..n][j] && xs[j] in xs[..n];
    if exists x <- xs[..n] :: Unfinished(x) {
      i := FurthestSession(xs[..n]);
      if Unfinished(xs[n]) && Level(xs[n]) > Level(xs[i]) {
        i := n;
      }
    } else {
      i := n;
    }
  }

  /** Burns lock rewards before balances, so they never deadlock: some session can always go on. */
  lemma NoDeadlock(sys: System)
    requires WellFormed(sys) && exists x <- sys.sessions :: Unfinished(x)
    ensures exists i :: CanAdvance(sys, i)
  {
    var i := FurthestSession(sys.sessions);
    assert CanAdvance(sys, i);
  }
}
