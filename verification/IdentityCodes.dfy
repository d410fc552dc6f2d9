/**
 Identity codes: short-lived codes that a shop types in to learn which client stands before it.
 The two point programs keep theirs, next to codes of other kinds, under the same keys of one
 store; each program also tracks, per client, the code in force. Random codes and clock readings
 are parameters; an entry is live until its time to live is over.
 */
module IdentityCodes {
  import opened Wrappers
  import opened Clock

  datatype Program = Cashback | EarnBurn

  const IDENTITY_TTL := 15 * MINUTE
  const REDEMPTION_TTL := 1 * HOUR
  const LOAD_POINTS_TTL := 15 * MINUTE

  function IdentityKind(p: Program): string {
    if p == Cashback then "cb_identity" else "identity"
  }

  function OtpTtl(p: Program, kind: string): int {
    match p
    case Cashback =>
      if kind == "cb_identity" then IDENTITY_TTL
      else if kind == "cb_redemption" then REDEMPTION_TTL
      else LOAD_POINTS_TTL
    case EarnBurn =>
      if kind == "redemption" then REDEMPTION_TTL
      else if kind == "load_points" then LOAD_POINTS_TTL
      else IDENTITY_TTL
  }

  datatype OtpData = OtpData(clientId: string, customerId: string, kind: string)

  datatype Entry<T> = Entry(value: T, until: int)

  type Tracker = (Program, string)

  datatype Store = Store(otps: map<string, Entry<OtpData>>, trackers: map<Tracker, Entry<string>>)

  const EMPTY := Store(map[], map[])

  function Live<K, T>(entries: map<K, Entry<T>>, k: K, now: int): Option<T> {
    if k in entries && now < entries[k].until then Some(entries[k].value) else None
  }

  datatype Error = UnknownCode | WrongKind

  /**
   Which of a request's cache accesses succeed. All failures but that of storing the code are ignored
   or only logged.
   */
  datatype Access = Access(read: bool, dropCode: bool, dropTracker: bool, store: bool, track: bool)

  const WORKING := Access(true, true, true, true, true)

  /**
   A request for a code reads the clock for its read and its two writes. `Put` and `Drop` are
   what the other flows do to the shared keys.
   */
  datatype Op =
    | Request(p: Program, clientId: string, customerId: string, code: string, readAt: int, setAt: int, trackAt: int,
        up: Access)
    | Put(p: Program, code: string, data: OtpData, at: int)
    | Drop(code: string, at: int)

  function Start(op: Op): int {
    if op.Request? then op.readAt else op.at
  }

  function End(op: Op): int {
    if op.Request? then op.trackAt else op.at
  }

  /** The clock does not go back within an operation, codes are not empty, and only requests issue identity codes. */
  predicate Lawful(op: Op) {
    match op
    case Request(_, _, _, code, readAt, setAt, trackAt, _) => code != "" && readAt <= setAt <= trackAt
    case Put(_, _, data, _) => forall p :: data.kind != IdentityKind(p)
    case Drop(_, _) => true
  }

  /** The code in force is dropped, and its tracker, as far as each access works. */
  function Forget(s: Store, k: Tracker, now: int, up: Access): Store {
    var held := Live(s.trackers, k, now);
    if !up.read || held.None? || held.value == "" then s
    else Store(if up.dropCode then s.otps - {held.value} else s.otps,
               if up.dropTracker then s.trackers - {k} else s.trackers)
  }

  function Step(s: Store, op: Op): Store {
    match op
    case Request(p, clientId, customerId, code, readAt, setAt, trackAt, up) =>
      var s1 := Forget(s, (p, clientId), readAt, up);
      var data := OtpData(clientId, customerId, IdentityKind(p));
      if !up.store then s1
      else Store(s1.otps[code := Entry(data, setAt + OtpTtl(p, IdentityKind(p)))],
                 if up.track then s1.trackers[(p, clientId) := Entry(code, trackAt + IDENTITY_TTL)] else s1.trackers)
    case Put(p, code, data, at) => s.(otps := s.otps[code := Entry(data, at + OtpTtl(p, data.kind))])
    case Drop(code, _) => s.(otps := s.otps - {code})
  }

  function Validate(s: Store, p: Program, code: string, now: int): Result<OtpData, Error> {
    var data := Live(s.otps, code, now);
    if data.None? then Err(UnknownCode)
    else if data.value.kind != IdentityKind(p) then Err(WrongKind)
    else Ok(data.value)
  }

  function After(run: seq<Op>): Store {
    if run == [] then EMPTY else Step(After(run[..|run| - 1]), run[|run| - 1])
  }

  /** One operation after another, the clock never going back, all over by `now`. */
  predicate Sequential(run: seq<Op>, now: int) {
    run == [] ||
    var op := run[|run| - 1];
    Sequential(run[..|run| - 1], Start(op)) && Lawful(op) && End(op) <= now
  }

  // ---------- the tracker covers its code ----------

  /** Every code that validates is tracked for its client, and the tracker outlives it. */
  ghost predicate Tracked(s: Store, now: int) {
    forall code, p :: Validate(s, p, code, now).Ok? ==> Covers(s, p, code)
  }

  /** A code that still validates at the end survives its request, and its tracker does not. */
  ghost predicate Orphans(s: Store, op: Op)
    requires op.Request?
  {
    && (exists x :: (x != op.code || !op.up.store) && GoodFor(s, op.p, x, op.clientId, op.trackAt))
    && !(op.up.read && op.up.dropCode)
    && ((op.up.store && op.up.track) || (op.up.read && op.up.dropTracker))
  }

  /** The new code is stored and still live at the end, and no tracker covers it. */
  predicate Uncovered(s: Store, op: Op)
    requires op.Request?
  {
    && op.up.store && !op.up.track && op.trackAt < op.setAt + IDENTITY_TTL
    && var (k, left) := ((op.p, op.clientId), Forget(s, (op.p, op.clientId), op.readAt, op.up).trackers);
       !(k in left && left[k].value == op.code && op.setAt + IDENTITY_TTL <= left[k].until)
  }

  ghost predicate LosesTrack(s: Store, op: Op) {
    op.Request? && (Orphans(s, op) || Uncovered(s, op))
  }

  predicate GoodFor(s: Store, p: Program, code: string, clientId: string, now: int) {
    Validate(s, p, code, now).Ok? && Validate(s, p, code, now).value.clientId == clientId
  }

  lemma IdentityLifetime(p: Program)
    ensures OtpTtl(p, IdentityKind(p)) == IDENTITY_TTL
  {}

  /** What is tracked of one code. */
  ghost predicate Covers(s: Store, p: Program, code: string)
    requires code in s.otps
  {
    var k := (p, s.otps[code].value.clientId);
    && code != "" && k in s.trackers && s.trackers[k].value == code
    && s.otps[code].until <= s.trackers[k].until
  }

  lemma RequestKeepsTracked(s: Store, op: Op)
    requires Tracked(s, Start(op)) && Lawful(op) && op.Request? && !LosesTrack(s, op)
    ensures Tracked(Step(s, op), End(op))
  {
    var s' := Step(s, op);
    forall code, p | Validate(s', p, code, End(op)).Ok? ensures Covers(s', p, code) {
      IdentityLifetime(p);
      if code != op.code || !op.up.store {
        assert s'.otps[code] == s.otps[code];
        assert Validate(s, p, code, Start(op)).Ok?;
        assert (p, s.otps[code].value.clientId) == (op.p, op.clientId) ==>
          GoodFor(s, op.p, code, op.clientId, op.trackAt);
      }
    }
  }

  lemma OtherKeepsTracked(s: Store, op: Op)
    requires Tracked(s, Start(op)) && Lawful(op) && !op.Request?
    ensures Tracked(Step(s, op), End(op))
  {
    var s' := Step(s, op);
    forall code, p | Validate(s', p, code, End(op)).Ok? ensures Covers(s', p, code) {
      assert Validate(s, p, code, Start(op)).Ok?;
    }
  }

  lemma OrphanIsUntracked(s: Store, op: Op)
    requires Tracked(s, Start(op)) && Lawful(op) && op.Request? && Orphans(s, op)
    ensures !Tracked(Step(s, op), End(op))
  {
    var x :| (x != op.code || !op.up.store) && GoodFor(s, op.p, x, op.clientId, op.trackAt);
    var s' := Step(s, op);
    assert Validate(s, op.p, x, op.readAt).Ok?;
    assert Validate(s', op.p, x, op.trackAt).Ok?;
  }

  lemma UncoveredIsUntracked(s: Store, op: Op)
    requires Tracked(s, Start(op)) && Lawful(op) && op.Request? && Uncovered(s, op)
    ensures !Tracked(Step(s, op), End(op))
  {
    IdentityLifetime(op.p);
    assert Validate(Step(s, op), op.p, op.code, op.trackAt).Ok?;
  }

  /**
   An operation keeps every good code tracked exactly when it neither orphans the code in force
   nor leaves the new one uncovered: any of the ignored failures can do it.
   */
  lemma StepKeepsTracked(s: Store, op: Op)
    requires Tracked(s, Start(op)) && Lawful(op)
    ensures Tracked(Step(s, op), End(op)) <==> !LosesTrack(s, op)
  {
    if !op.Request? {
      OtherKeepsTracked(s, op);
    } else if !LosesTrack(s, op) {
      RequestKeepsTracked(s, op);
    } else if Orphans(s, op) {
      OrphanIsUntracked(s, op);
    } else {
      UncoveredIsUntracked(s, op);
    }
  }

  /** Once a good code is not the tracked one, its client's next request leaves two, with every access working. */
  lemma UntrackedMeansTwo(s: Store, p: Program, x: string, y: string, shop: string, t: int)
    requires Validate(s, p, x, t).Ok? && y != "" && y != x
    requires Live(s.trackers, (p, Validate(s, p, x, t).value.clientId), t) != Some(x)
    ensures var c := Validate(s, p, x, t).value.clientId;
      var s' := Step(s, Request(p, c, shop, y, t, t, t, WORKING));
      GoodFor(s', p, x, c, t) && GoodFor(s', p, y, c, t)
  {
    IdentityLifetime(p);
  }

  lemma TrackedLater(s: Store, t: int, now: int)
    requires Tracked(s, t) && t <= now
    ensures Tracked(s, now)
  {
    forall code, p | Validate(s, p, code, now).Ok? ensures Validate(s, p, code, t).Ok? {}
  }

  /** No operation of the run loses track of a good code. */
  ghost predicate KeepsTrack(run: seq<Op>) {
    run == [] || (KeepsTrack(run[..|run| - 1]) && !LosesTrack(After(run[..|run| - 1]), run[|run| - 1]))
  }

  /** Every request's accesses all work. */
  predicate Faultless(run: seq<Op>) {
    forall op <- run :: op.Request? ==> op.up == WORKING
  }

  lemma {:induction false} FaultlessKeepsTrack(run: seq<Op>)
    requires Faultless(run)
    ensures KeepsTrack(run)
  {
    if run != [] {
      FaultlessKeepsTrack(run[..|run| - 1]);
      assert run[|run| - 1] in run;
    }
  }

  lemma {:induction false} RunKeepsTracked(run: seq<Op>, now: int)
    requires Sequential(run, now) && KeepsTrack(run)
    ensures Tracked(After(run), now)
  {
    if run != [] {
      var op := run[|run| - 1];
      RunKeepsTracked(run[..|run| - 1], Start(op));
      StepKeepsTracked(After(run[..|run| - 1]), op);
      TrackedLater(After(run), End(op), now);
    }
  }

  /** Two codes that validate to one client of one program are the same code, whatever was drawn. */
  lemma OneLiveCode(run: seq<Op>, p: Program, x: string, y: string, clientId: string, now: int)
    requires Sequential(run, now) && KeepsTrack(run)
    requires GoodFor(After(run), p, x, clientId, now) && GoodFor(After(run), p, y, clientId, now)
    ensures x == y
  {
    RunKeepsTracked(run, now);
  }

  /**
   A client's first two requests, at one instant and with different codes, leave both good
   exactly when both are stored and the first is not tracked, or not read or dropped by the second.
   */
  lemma TwoRequestsTwoCodes(p: Program, c: string, shop: string, x: string, y: string, t: int, first: Access,
      second: Access)
    requires x != "" && y != "" && x != y
    ensures var run := [Request(p, c, shop, x, t, t, t, first), Request(p, c, shop, y, t, t, t, second)];
      && Sequential(run, t)
      && (GoodFor(After(run), p, x, c, t) && GoodFor(After(run), p, y, c, t) <==>
          first.store && second.store && !(first.track && second.read && second.dropCode))
  {
    var one := Request(p, c, shop, x, t, t, t, first);
    var two := Request(p, c, shop, y, t, t, t, second);
    Snoc([], one, t);
    Snoc([one], two, t);
    assert [] + [one] == [one] && [one] + [two] == [one, two];
    AfterOne(one);
  }

  lemma Snoc(run: seq<Op>, op: Op, now: int)
    ensures After(run + [op]) == Step(After(run), op)
    ensures Sequential(run + [op], now) <==> Sequential(run, Start(op)) && Lawful(op) && End(op) <= now
  {
    assert (run + [op])[..|run + [op]| - 1] == run;
  }

  lemma AfterOne(op: Op)
    requires op.Request?
    ensures Step(EMPTY, op) == if !op.up.store then EMPTY
      else Store(map[op.code :=
                       Entry(OtpData(op.clientId, op.customerId, IdentityKind(op.p)), op.setAt + IDENTITY_TTL)],
                 if op.up.track then map[(op.p, op.clientId) := Entry(op.code, op.trackAt + IDENTITY_TTL)] else map[])
  {
    IdentityLifetime(op.p);
  }

  // ---------- a code against the whole history ----------

  /** The last request of a client. */
  function LastRequest(run: seq<Op>, p: Program, clientId: string): (r: Option<nat>)
    ensures r.Some? ==>
      r.value < |run| && run[r.value].Request? && run[r.value].p == p && run[r.value].clientId == clientId
  {
    if run == [] then None
    else
      var op := run[|run| - 1];
      if op.Request? && op.p == p && op.clientId == clientId then Some(|run| - 1)
      else LastRequest(run[..|run| - 1], p, clientId)
  }

  /**
   Whether the last operation of the run writes or removes the code: a client's request removes the one
   before it, while tracked.
   */
  predicate Touches(run: seq<Op>, code: string)
    requires run != []
  {
    var op := run[|run| - 1];
    op.code == code ||
    (op.Request? &&
     var before := LastRequest(run[..|run| - 1], op.p, op.clientId);
     before.Some? && run[before.value].code == code && op.readAt < run[before.value].trackAt + IDENTITY_TTL)
  }

  function LastTouch(run: seq<Op>, code: string): (r: Option<nat>)
    ensures r.Some? ==> r.value < |run|
  {
    if run == [] then None
    else if Touches(run, code) then Some(|run| - 1)
    else LastTouch(run[..|run| - 1], code)
  }

  /** The tracker is the client's last request. */
  lemma {:induction false} TrackerIsLastRequest(run: seq<Op>, p: Program, clientId: string, now: int)
    requires Sequential(run, now) && Faultless(run)
    ensures var (k, last) := ((p, clientId), LastRequest(run, p, clientId));
      && (k in After(run).trackers <==> last.Some?)
      && (last.Some? ==> After(run).trackers[k] == Entry(run[last.value].code, run[last.value].trackAt + IDENTITY_TTL))
  {
    if run != [] {
      var (before, op) := (run[..|run| - 1], run[|run| - 1]);
      TrackerIsLastRequest(before, p, clientId, Start(op));
      assert op in run;
      TrackerAfter(After(before), op, (p, clientId));
    }
  }

  lemma TrackerAfter(s: Store, op: Op, k: Tracker)
    requires op.Request? ==> op.up == WORKING
    ensures var s' := Step(s, op);
      if op.Request? && (op.p, op.clientId) == k then k in s'.trackers
        && s'.trackers[k] == Entry(op.code, op.trackAt + IDENTITY_TTL)
      else (k in s'.trackers <==> k in s.trackers) && (k in s.trackers ==> s'.trackers[k] == s.trackers[k])
  {}

  /** The entry of a code is what the last operation on it wrote. */
  lemma {:induction false} EntryIsLastTouch(run: seq<Op>, code: string, now: int)
    requires Sequential(run, now) && Faultless(run)
    ensures var last := LastTouch(run, code);
      && (code in After(run).otps <==> last.Some? && !run[last.value].Drop? && run[last.value].code == code)
      && (code in After(run).otps ==>
          var (op, entry) := (run[last.value], After(run).otps[code]);
          entry == if op.Request?
                   then Entry(OtpData(op.clientId, op.customerId, IdentityKind(op.p)), op.setAt + IDENTITY_TTL)
                   else Entry(op.data, op.at + OtpTtl(op.p, op.data.kind)))
  {
    if run != [] {
      var (before, op) := (run[..|run| - 1], run[|run| - 1]);
      EntryIsLastTouch(before, code, Start(op));
      if op.Request? {
        IdentityLifetime(op.p);
        TrackerIsLastRequest(before, op.p, op.clientId, Start(op));
        var last := LastRequest(before, op.p, op.clientId);
        CodesAreNotEmpty(before, Start(op));
      }
    }
  }

  lemma {:induction false} CodesAreNotEmpty(run: seq<Op>, now: int)
    requires Sequential(run, now)
    ensures forall op <- run :: op.Request? ==> op.code != ""
  {
    if run != [] {
      CodesAreNotEmpty(run[..|run| - 1], Start(run[|run| - 1]));
    }
  }

  /** No operation after the last touch writes the code. */
  lemma {:induction false} UntouchedSince(run: seq<Op>, code: string, i: nat)
    requires i < |run| && run[i].code == code
    ensures LastTouch(run, code).Some? && i <= LastTouch(run, code).value
  {
    if i < |run| - 1 && !Touches(run, code) {
      UntouchedSince(run[..|run| - 1], code, i);
    }
  }

  lemma {:induction false} NoLaterRequest(run: seq<Op>, p: Program, clientId: string, i: nat)
    requires i < |run| && run[i].Request? && run[i].p == p && run[i].clientId == clientId
    ensures LastRequest(run, p, clientId).Some? && i <= LastRequest(run, p, clientId).value
  {
    if i < |run| - 1 && LastRequest(run, p, clientId) != Some(|run| - 1) {
      NoLaterRequest(run[..|run| - 1], p, clientId, i);
    }
  }

  /**
   A code is good for a client exactly when it is the one the client asked for last, less than
   fifteen minutes ago, and nothing has used, removed or overwritten it since.
   */
  lemma GoodExactlyWhenLatest(run: seq<Op>, p: Program, code: string, clientId: string, now: int)
    requires Sequential(run, now) && Faultless(run)
    ensures
      GoodFor(After(run), p, code, clientId, now) <==>
      var last := LastRequest(run, p, clientId);
      && last.Some? && run[last.value].code == code
      && now < run[last.value].setAt + 15 * 60 * SECOND
      && LastTouch(run, code) == last
  {
    EntryIsLastTouch(run, code, now);
    FaultlessKeepsTrack(run);
    RunKeepsTracked(run, now);
    TrackerIsLastRequest(run, p, clientId, now);
    OnlyRequestsIssue(run, p, now);
    if GoodFor(After(run), p, code, clientId, now) {
      var i := LastTouch(run, code).value;
      var last := LastRequest(run, p, clientId);
      UntouchedSince(run, code, last.value);
      assert run[i].Request? && run[i].p == p && run[i].clientId == clientId;
      NoLaterRequest(run, p, clientId, i);
    }
  }

  lemma {:induction false} OnlyRequestsIssue(run: seq<Op>, p: Program, now: int)
    requires Sequential(run, now)
    ensures forall op <- run :: op.Put? ==> op.data.kind != IdentityKind(p)
  {
    if run != [] {
      OnlyRequestsIssue(run[..|run| - 1], p, Start(run[|run| - 1]));
    }
  }

  /**
   What a code of any kind stands for is what was last written under it, for an hour if it redeems a
   reward and for fifteen minutes otherwise. A code that stands for nothing is unknown, and one of
   another kind is refused as such.
   */
  lemma CodeLivesByKind(run: seq<Op>, p: Program, code: string, now: int)
    requires Sequential(run, now) && Faultless(run)
    ensures var (last, found) := (LastTouch(run, code), Live(After(run).otps, code, now));
      && (found.Some? <==>
          && last.Some? && run[last.value].code == code && !run[last.value].Drop?
          && now < WrittenAt(run[last.value]) + if RedeemsReward(run[last.value]) then 3600 * SECOND else 900 * SECOND)
      && (found.Some? && run[last.value].Put? ==> found.value == run[last.value].data)
      && (Validate(After(run), p, code, now) == Err(UnknownCode) <==> found.None?)
      && (Validate(After(run), p, code, now) == Err(WrongKind) <==>
          found.Some? && found.value.kind != if p == Cashback then "cb_identity" else "identity")
  {
    EntryIsLastTouch(run, code, now);
  }

  function WrittenAt(op: Op): int {
    if op.Request? then op.setAt else op.at
  }

  /** Each program's code for redeeming a reward. */
  predicate RedeemsReward(op: Op) {
    op.Put? && op.data.kind == if op.p == Cashback then "cb_redemption" else "redemption"
  }
}
