/**
 The period cap statement by statement. An earn reads the window sum of its account without a
 lock and writes its row later; any number of earns run their two statements in any order, with
 other rows written in between. Each earn is dated at the start of its transaction.
 */
module CapInterleaving {
  import opened Wrappers
  import opened Clock
  import opened Ledger
  import opened LedgerCaps
  import opened LedgerExpiry

  /** `seen` is how many rows were committed when the window was read. */
  datatype Phase = Waiting | Holding(credit: int, room: real, seen: nat) | Ended

  datatype Session = Session(id: Id, want: int, start: int, phase: Phase)

  datatype System = System(log: seq<Transaction>, sessions: seq<Session>)

  /** The account whose earns are followed, and their cap. */
  datatype Scope = Scope(account: Account, cap: Cap)

  function Window(c: Scope, start: int): Transaction -> bool {
    EarnsSince(c.account, start - c.cap.windowDays * DAY)
  }

  function Room(c: Scope, log: seq<Transaction>, start: int): real {
    c.cap.limit - Total(log, Window(c, start)) as real
  }

  predicate IsEarn(c: Scope, t: Transaction) {
    t.account == c.account && t.kind == Earn
  }

  datatype Action =
    | Begin(id: Id, want: int, start: int)
    | Read(i: nat)            // the window sum, and the clamp
    | Write(i: nat)           // the row, committed
    | Abort(i: nat)           // a duplicate receipt, or a lost session
    | Other(t: Transaction)   // any other committed row

  predicate Possible(c: Scope, sys: System, act: Action) {
    match act
    case Begin(_, _, _) => true
    case Read(i) => i < |sys.sessions| && sys.sessions[i].phase.Waiting?
    case Write(i) => i < |sys.sessions| && sys.sessions[i].phase.Holding?
    case Abort(i) => i < |sys.sessions|
    case Other(t) => !IsEarn(c, t)
  }

  function Afterwards(c: Scope, log: seq<Transaction>, x: Session): Phase {
    var r := Clamp(log, c.account, x.want, Some(c.cap), x.start);
    if r.Err? then Ended else Holding(r.value, Room(c, log, x.start), |log|)
  }

  function RowOf(c: Scope, x: Session): Transaction
    requires x.phase.Holding?
  {
    Row(x.id, c.account, Earn, x.phase.credit, x.start)
  }

  function Next(c: Scope, sys: System, act: Action): System
    requires Possible(c, sys, act)
  {
    match act
    case Begin(id, want, start) => sys.(sessions := sys.sessions + [Session(id, want, start, Waiting)])
    case Read(i) =>
      var x := sys.sessions[i];
      sys.(sessions := sys.sessions[i := x.(phase := Afterwards(c, sys.log, x))])
    case Write(i) =>
      System(sys.log + [RowOf(c, sys.sessions[i])], sys.sessions[i := sys.sessions[i].(phase := Ended)])
    case Abort(i) => sys.(sessions := sys.sessions[i := sys.sessions[i].(phase := Ended)])
    case Other(t) => sys.(log := sys.log + [t])
  }

  // ---------- one write ----------

  /** What was earned in the session's window between its read and now. */
  function Overtaken(c: Scope, log: seq<Transaction>, x: Session): int
    requires x.phase.Holding? && x.phase.seen <= |log|
  {
    Total(log[x.phase.seen..], Window(c, x.start))
  }

  /** Nothing has overtaken the session, or the room it saw covers that and all it asked for. */
  predicate Covered(c: Scope, log: seq<Transaction>, x: Session)
    requires x.phase.Holding? && x.phase.seen <= |log|
  {
    Overtaken(c, log, x) == 0 || (x.want + Overtaken(c, log, x)) as real <= x.phase.room
  }

  /** A session holds what it read of a prefix of the log. */
  ghost predicate Faithful(c: Scope, log: seq<Transaction>, x: Session) {
    x.phase.Holding? ==> x.phase.seen <= |log| && x.phase == Afterwards(c, log[..x.phase.seen], x)
  }

  lemma RoomNow(c: Scope, log: seq<Transaction>, x: Session)
    requires x.phase.Holding? && Faithful(c, log, x)
    ensures Room(c, log, x.start) == x.phase.room - Overtaken(c, log, x) as real && Overtaken(c, log, x) >= 0
  {
    var seen := x.phase.seen;
    assert log == log[..seen] + log[seen..];
    TotalConcat(log[..seen], log[seen..], Window(c, x.start));
    TotalMonotone(log[seen..], Window(c, x.start), Window(c, x.start));
  }

  /**
   A write is covered exactly when it fits the room there is by then, and exactly when the earn
   done as one step at that moment would be credited the same.
   */
  lemma CoveredIffAtomic(c: Scope, log: seq<Transaction>, x: Session)
    requires x.phase.Holding? && Faithful(c, log, x)
    ensures Covered(c, log, x) <==> x.phase.credit as real <= Room(c, log, x.start)
    ensures Covered(c, log, x) <==> Clamp(log, c.account, x.want, Some(c.cap), x.start) == Ok(x.phase.credit)
  {
    RoomNow(c, log, x);
    ClampIsLargestFit(log[..x.phase.seen], c.account, x.want, c.cap, x.start);
    ClampIsLargestFit(log, c.account, x.want, c.cap, x.start);
  }

  // ---------- all windows ----------

  lemma WindowSnoc(c: Scope, log: seq<Transaction>, t: Transaction, end: int)
    ensures InWindow(log + [t], c.account, c.cap, end) == InWindow(log, c.account, c.cap, end)
      + if EarnsBetween(c.account, end - c.cap.windowDays * DAY, end)(t) then t.amount else 0
  {
    TotalSnoc(log, t, EarnsBetween(c.account, end - c.cap.windowDays * DAY, end));
  }

  /** A covered write keeps every window within the cap, whatever the order of the dates. */
  lemma CoveredKeepsWithin(c: Scope, log: seq<Transaction>, x: Session)
    requires x.phase.Holding? && Faithful(c, log, x) && WindowsWithin(log, c.account, c.cap) && Covered(c, log, x)
    ensures WindowsWithin(log + [RowOf(c, x)], c.account, c.cap)
  {
    CoveredIffAtomic(c, log, x);
    var t := RowOf(c, x);
    forall end ensures InWindow(log + [t], c.account, c.cap, end) as real <= c.cap.limit {
      WindowSnoc(c, log, t, end);
      if EarnsBetween(c.account, end - c.cap.windowDays * DAY, end)(t) {
        TotalMonotone(log, EarnsBetween(c.account, end - c.cap.windowDays * DAY, end), Window(c, x.start));
      }
    }
  }

  /** A closed window of the cap's length that ends at `end` holds the session's date and every row its sum counts. */
  ghost predicate Spans(c: Scope, log: seq<Transaction>, x: Session, end: int) {
    && end - c.cap.windowDays * DAY <= x.start <= end
    && forall t <- log :: Window(c, x.start)(t) ==> end - c.cap.windowDays * DAY <= t.createdAt <= end
  }

  /** What the session counts fits one window: so when earns commit in the order of their dates, and not only then. */
  ghost predicate SharesWindow(c: Scope, log: seq<Transaction>, x: Session) {
    exists end :: Spans(c, log, x, end)
  }

  lemma LatestSharesWindow(c: Scope, log: seq<Transaction>, x: Session)
    requires c.cap.windowDays >= 0 && forall t <- log :: IsEarn(c, t) ==> t.createdAt <= x.start
    ensures SharesWindow(c, log, x)
  {
    assert Spans(c, log, x, x.start);
  }

  /** A write that is not covered overfills the window it shares with what it counts. */
  lemma UncoveredOverfills(c: Scope, log: seq<Transaction>, x: Session, end: int)
    requires x.phase.Holding? && Faithful(c, log, x) && Spans(c, log, x, end) && !Covered(c, log, x)
    ensures InWindow(log + [RowOf(c, x)], c.account, c.cap, end) as real > c.cap.limit
  {
    CoveredIffAtomic(c, log, x);
    ClampIsLargestFit(log[..x.phase.seen], c.account, x.want, c.cap, x.start);
    WindowSnoc(c, log, RowOf(c, x), end);
    TotalAgree(log, EarnsBetween(c.account, end - c.cap.windowDays * DAY, end), Window(c, x.start));
  }

  // ---------- traces ----------

  ghost predicate IsTrace(c: Scope, acts: seq<Action>)
    decreases |acts|, 0
  {
    acts == [] || (IsTrace(c, acts[..|acts| - 1]) && Possible(c, Reach(c, acts[..|acts| - 1]), acts[|acts| - 1]))
  }

  ghost function Reach(c: Scope, acts: seq<Action>): System
    requires IsTrace(c, acts)
    decreases |acts|, 1
  {
    if acts == [] then System([], []) else Next(c, Reach(c, acts[..|acts| - 1]), acts[|acts| - 1])
  }

  /** What sessions hold stays faithful as the log grows. */
  lemma {:induction false} TraceIsFaithful(c: Scope, acts: seq<Action>)
    requires IsTrace(c, acts)
    ensures forall i :: 0 <= i < |Reach(c, acts).sessions| ==>
      Faithful(c, Reach(c, acts).log, Reach(c, acts).sessions[i])
  {
    if acts != [] {
      var (before, act) := (acts[..|acts| - 1], acts[|acts| - 1]);
      TraceIsFaithful(c, before);
      var (sys, sys') := (Reach(c, before), Reach(c, acts));
      forall i | 0 <= i < |sys'.sessions| ensures Faithful(c, sys'.log, sys'.sessions[i]) {
        if i < |sys.sessions| && sys'.sessions[i] == sys.sessions[i] {
          FaithfulLater(c, sys.log, sys'.log, sys.sessions[i]);
        } else {
          assert sys.log[..|sys.log|] == sys.log;
        }
      }
    }
  }

  lemma FaithfulLater(c: Scope, log: seq<Transaction>, log': seq<Transaction>, x: Session)
    requires Faithful(c, log, x) && log <= log'
    ensures Faithful(c, log', x)
  {
    if x.phase.Holding? {
      assert log'[..x.phase.seen] == log[..x.phase.seen];
    }
  }

  /** Every write of the trace was covered when it was made. */
  ghost predicate AllCovered(c: Scope, acts: seq<Action>)
    requires IsTrace(c, acts)
  {
    acts == [] ||
    var (sys, act) := (Reach(c, acts[..|acts| - 1]), acts[|acts| - 1]);
    && AllCovered(c, acts[..|acts| - 1])
    && (act.Write? ==>
        var x := sys.sessions[act.i]; x.phase.seen <= |sys.log| && Covered(c, sys.log, x))
  }

  /** Every write of the trace shared a window with what it counted when it was made. */
  ghost predicate AllShareWindows(c: Scope, acts: seq<Action>)
    requires IsTrace(c, acts)
  {
    acts == [] ||
    var (sys, act) := (Reach(c, acts[..|acts| - 1]), acts[|acts| - 1]);
    && AllShareWindows(c, acts[..|acts| - 1])
    && (act.Write? ==> SharesWindow(c, sys.log, sys.sessions[act.i]))
  }

  /** Covered writes keep every closed window of any interleaving within the cap. */
  lemma {:induction false} CoveredKeepsCap(c: Scope, acts: seq<Action>)
    requires IsTrace(c, acts) && AllCovered(c, acts) && c.cap.limit >= 0.0
    ensures WindowsWithin(Reach(c, acts).log, c.account, c.cap)
  {
    if acts != [] {
      var (before, act) := (acts[..|acts| - 1], acts[|acts| - 1]);
      var sys := Reach(c, before);
      CoveredKeepsCap(c, before);
      TraceIsFaithful(c, before);
      if act.Write? {
        CoveredKeepsWithin(c, sys.log, sys.sessions[act.i]);
      } else if act.Other? {
        RowsOfOthers(c, sys.log, act.t);
      }
    }
  }

  /** Rows that are no earns of the account change no window. */
  lemma RowsOfOthers(c: Scope, log: seq<Transaction>, t: Transaction)
    requires !IsEarn(c, t)
    ensures WindowsWithin(log + [t], c.account, c.cap) <==> WindowsWithin(log, c.account, c.cap)
  {
    forall end ensures InWindow(log + [t], c.account, c.cap, end) == InWindow(log, c.account, c.cap, end) {
      WindowSnoc(c, log, t, end);
    }
  }

  lemma ShorterIsWithin(c: Scope, log: seq<Transaction>, t: Transaction)
    requires WindowsWithin(log + [t], c.account, c.cap)
    ensures WindowsWithin(log, c.account, c.cap)
  {
    forall end ensures InWindow(log, c.account, c.cap, end) <= InWindow(log + [t], c.account, c.cap, end) {
      WindowSnoc(c, log, t, end);
    }
  }

  /**
   When each write shares a window with the rows it counts, every window stays within the cap
   exactly when each write was covered: nothing overtook it, or the room it read holds what
   did and all that it asked for.
   */
  lemma {:induction false} CapIffCovered(c: Scope, acts: seq<Action>)
    requires IsTrace(c, acts) && AllShareWindows(c, acts) && c.cap.limit >= 0.0
    ensures WindowsWithin(Reach(c, acts).log, c.account, c.cap) <==> AllCovered(c, acts)
  {
    if acts != [] {
      var (before, act) := (acts[..|acts| - 1], acts[|acts| - 1]);
      var sys := Reach(c, before);
      CapIffCovered(c, before);
      TraceIsFaithful(c, before);
      if act.Write? {
        WriteKeepsIffCovered(c, sys.log, sys.sessions[act.i]);
      } else if act.Other? {
        RowsOfOthers(c, sys.log, act.t);
      }
    }
  }

  lemma WriteKeepsIffCovered(c: Scope, log: seq<Transaction>, x: Session)
    requires x.phase.Holding? && Faithful(c, log, x) && SharesWindow(c, log, x)
    ensures WindowsWithin(log + [RowOf(c, x)], c.account, c.cap) <==>
      WindowsWithin(log, c.account, c.cap) && Covered(c, log, x)
  {
    if WindowsWithin(log, c.account, c.cap) && Covered(c, log, x) {
      CoveredKeepsWithin(c, log, x);
    } else if WindowsWithin(log + [RowOf(c, x)], c.account, c.cap) {
      ShorterIsWithin(c, log, RowOf(c, x));
      var end :| Spans(c, log, x, end);
      UncoveredOverfills(c, log, x, end);
    }
  }

  // ---------- two earns at once ----------

  function TwoEarns(want: int, want': int, t: int): seq<Action> {
    [Begin("1", want, t), Begin("2", want', t), Read(0), Read(1), Write(0), Write(1)]
  }

  lemma TraceSnoc(c: Scope, acts: seq<Action>, act: Action)
    requires IsTrace(c, acts) && Possible(c, Reach(c, acts), act)
    ensures IsTrace(c, acts + [act]) && Reach(c, acts + [act]) == Next(c, Reach(c, acts), act)
  {
    assert (acts + [act])[..|acts + [act]| - 1] == acts;
  }

  lemma BothBegun(c: Scope, want: int, want': int, t: int)
    ensures var acts := [Begin("1", want, t), Begin("2", want', t)];
      IsTrace(c, acts) && Reach(c, acts) ==
          System([], [Session("1", want, t, Waiting), Session("2", want', t, Waiting)])
  {
    var (b, b') := (Begin("1", want, t), Begin("2", want', t));
    TraceSnoc(c, [], b);
    assert [] + [b] == [b];
    TraceSnoc(c, [b], b');
    assert [b] + [b'] == [b, b'];
  }

  lemma BothRead(c: Scope, want: int, want': int, t: int)
    requires 0 < want && want as real <= c.cap.limit && 0 < want' && want' as real <= c.cap.limit
    ensures var acts := [Begin("1", want, t), Begin("2", want', t), Read(0), Read(1)];
      && IsTrace(c, acts)
      && Reach(c, acts) == System([], [Session("1", want, t, Holding(want, c.cap.limit, 0)),
                                       Session("2", want', t, Holding(want', c.cap.limit, 0))])
  {
    var begun := [Begin("1", want, t), Begin("2", want', t)];
    BothBegun(c, want, want', t);
    TraceSnoc(c, begun, Read(0));
    TraceSnoc(c, begun + [Read(0)], Read(1));
    assert begun + [Read(0)] + [Read(1)] == [Begin("1", want, t), Begin("2", want', t), Read(0), Read(1)];
  }

  lemma BothWritten(c: Scope, want: int, want': int, t: int)
    requires 0 < want && want as real <= c.cap.limit && 0 < want' && want' as real <= c.cap.limit
    ensures IsTrace(c, TwoEarns(want, want', t))
    ensures Reach(c, TwoEarns(want, want', t)).log ==
      [Row("1", c.account, Earn, want, t), Row("2", c.account, Earn, want', t)]
  {
    var acts := [Begin("1", want, t), Begin("2", want', t), Read(0), Read(1)];
    BothRead(c, want, want', t);
    TraceSnoc(c, acts, Write(0));
    TraceSnoc(c, acts + [Write(0)], Write(1));
    assert acts + [Write(0)] + [Write(1)] == TwoEarns(want, want', t);
  }

  lemma TwoRowsTotal(c: Scope, first: Transaction, second: Transaction, end: int)
    requires forall t <- [first, second] :: EarnsBetween(c.account, end - c.cap.windowDays * DAY, end)(t)
    ensures InWindow([first, second], c.account, c.cap, end) == first.amount + second.amount
  {
    var none: seq<Transaction> := [];
    assert first in [first, second] && second in [first, second];
    assert none + [first] == [first] && [first] + [second] == [first, second];
    WindowSnoc(c, none, first, end);
    WindowSnoc(c, [first], second, end);
  }

  /** Two earns that each fit the empty window and both read it, but do not fit it together, leave it above the cap. */
  lemma TwoEarnsExceedCap(c: Scope, want: int, want': int, t: int)
    requires 0 < want && want as real <= c.cap.limit && 0 < want' && want' as real <= c.cap.limit
    requires c.cap.limit < (want + want') as real && c.cap.windowDays >= 0
    ensures IsTrace(c, TwoEarns(want, want', t))
    ensures InWindow(Reach(c, TwoEarns(want, want', t)).log, c.account, c.cap, t) as real > c.cap.limit
  {
    BothWritten(c, want, want', t);
    TwoRowsTotal(c, Row("1", c.account, Earn, want, t), Row("2", c.account, Earn, want', t), t);
  }
}
