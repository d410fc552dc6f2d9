/**
 Feature flags: a table of flags, a cache in front of it whose entries live a minute, partial
 updates through the service, and changes made to the table behind the service's back.
 */
module FeatureFlags {
  import opened Wrappers
  import opened Clock

  const CACHE_TTL := 60 * SECOND

  datatype Flag = Flag(
    key: string, enabledGlobally: bool, overrides: map<string, bool>, defaultValue: bool, description: string)
  {
    /** Override before global switch before default; no customer, no override. */
    function Resolve(customerId: string): bool {
      if customerId != "" && customerId in overrides then overrides[customerId]
      else if enabledGlobally then true
      else defaultValue
    }
  }

  /** What is absent stays as it is. */
  datatype UpdateInput = UpdateInput(
    enabledGlobally: Option<bool>, overrides: Option<map<string, bool>>, defaultValue: Option<bool>,
        description: Option<string>)

  datatype Entry = Entry(flag: Flag, until: int)

  datatype State = State(flags: map<string, Flag>, cache: map<string, Entry>)

  function Blank(key: string): Flag {
    Flag(key, false, map[], false, "")
  }

  function GetOr<T>(given: Option<T>, kept: T): T {
    if given.Some? then given.value else kept
  }

  function Patched(f: Flag, u: UpdateInput): Flag {
    Flag(f.key, GetOr(u.enabledGlobally, f.enabledGlobally), GetOr(u.overrides, f.overrides),
         GetOr(u.defaultValue, f.defaultValue), GetOr(u.description, f.description))
  }

  function Upserted(flags: map<string, Flag>, key: string, u: UpdateInput): Flag {
    Patched(if key in flags then flags[key] else Blank(key), u)
  }

  /**
   A lookup reads cache and table, then fills the cache. An update drops the cache entry, if the
   cache answers (`dropped`). Entries may also vanish, and rows be written or removed directly.
   */
  datatype Op =
    | Lookup(key: string, readAt: int, setAt: int)
    | Update(key: string, input: UpdateInput, at: int, dropped: bool)
    | Evict(key: string, at: int)
    | Alter(key: string, row: Option<Flag>, at: int)

  function Start(op: Op): int {
    if op.Lookup? then op.readAt else op.at
  }

  function End(op: Op): int {
    if op.Lookup? then op.setAt else op.at
  }

  function Cached(s: State, key: string, now: int): Option<Flag> {
    if key in s.cache && now < s.cache[key].until then Some(s.cache[key].flag) else None
  }

  function Stored(s: State, key: string): Option<Flag> {
    if key in s.flags then Some(s.flags[key]) else None
  }

  function Loaded(s: State, key: string, now: int): Option<Flag> {
    if Cached(s, key, now).Some? then Cached(s, key, now) else Stored(s, key)
  }

  function Resolved(f: Option<Flag>, customerId: string): bool {
    f.Some? && f.value.Resolve(customerId)
  }

  function Enabled(s: State, key: string, customerId: string, now: int): bool {
    Resolved(Loaded(s, key, now), customerId)
  }

  function Step(s: State, op: Op): State {
    match op
    case Lookup(key, readAt, setAt) =>
      if Cached(s, key, readAt).Some? || key !in s.flags then s
      else s.(cache := s.cache[key := Entry(s.flags[key], setAt + CACHE_TTL)])
    case Update(key, input, _, dropped) =>
      State(s.flags[key := Upserted(s.flags, key, input)], if dropped then s.cache - {key} else s.cache)
    case Evict(key, _) => s.(cache := s.cache - {key})
    case Alter(key, row, _) =>
      s.(flags := if row.Some? then s.flags[key := row.value] else s.flags - {key})
  }

  function After(start: map<string, Flag>, run: seq<Op>): State {
    if run == [] then State(start, map[]) else Step(After(start, run[..|run| - 1]), run[|run| - 1])
  }

  predicate Sequential(run: seq<Op>, now: int) {
    run == [] ||
    var op := run[|run| - 1];
    Sequential(run[..|run| - 1], Start(op)) && Start(op) <= End(op) <= now
  }

  // ---------- staleness ----------

  /** A change of the table that leaves the cache entry where it is. */
  predicate GoesBehind(op: Op, key: string) {
    op.key == key && (op.Alter? || (op.Update? && !op.dropped))
  }

  /** All changes behind the cache's back are older than the entries that may still be live. */
  predicate SettledSince(run: seq<Op>, key: string, horizon: int) {
    forall op <- run :: GoesBehind(op, key) ==> op.at <= horizon
  }

  /** Where a cached flag comes from: a lookup that found it in the table, with no dropping update since. */
  ghost predicate ReadBy(start: map<string, Flag>, run: seq<Op>, i: nat, key: string, e: Entry) {
    && i < |run| && run[i].Lookup? && run[i].key == key
    && e == Entry(e.flag, run[i].setAt + CACHE_TTL)
    && Stored(After(start, run[..i]), key) == Some(e.flag)
    && forall j :: i < j < |run| && run[j].key == key ==> !(run[j].Update? && run[j].dropped)
  }

  lemma ReadByExtends(start: map<string, Flag>, run: seq<Op>, i: nat, key: string, e: Entry, op: Op)
    requires ReadBy(start, run, i, key, e)
    requires op.key == key ==> !(op.Update? && op.dropped)
    ensures ReadBy(start, run + [op], i, key, e)
  {
    assert (run + [op])[..i] == run[..i];
  }

  /** Every cached flag was in the table at a lookup, and survives no dropping update. */
  lemma {:induction false} CachedWasRead(start: map<string, Flag>, run: seq<Op>, key: string) returns (i: nat)
    requires key in After(start, run).cache
    ensures ReadBy(start, run, i, key, After(start, run).cache[key])
  {
    var (before, op) := (run[..|run| - 1], run[|run| - 1]);
    assert run == before + [op];
    var (s, s') := (After(start, before), After(start, run));
    if key in s.cache && s'.cache[key] == s.cache[key] && !(op.Update? && op.key == key && op.dropped) {
      i := CachedWasRead(start, before, key);
      ReadByExtends(start, before, i, key, s.cache[key], op);
    } else {
      i := |run| - 1;
    }
  }

  /** The row is still what it was at the lookup when nothing has gone behind the cache since. */
  lemma {:induction false} RowUnchangedSince(start: map<string, Flag>, run: seq<Op>, i: nat, key: string, e: Entry)
    requires ReadBy(start, run, i, key, e)
    requires forall j :: i < j < |run| ==> !GoesBehind(run[j], key)
    ensures Stored(After(start, run), key) == Some(e.flag)
  {
    var before := run[..|run| - 1];
    if i < |run| - 1 {
      assert run[..i] == before[..i];
      RowUnchangedSince(start, before, i, key, e);
    }
  }

  lemma {:induction false} LaterInRun(run: seq<Op>, i: nat, j: nat, now: int)
    requires i < j < |run| && Sequential(run, now)
    ensures Start(run[i]) <= End(run[i]) <= Start(run[j]) <= End(run[j]) <= now
  {
    var before := run[..|run| - 1];
    if j < |run| - 1 {
      LaterInRun(before, i, j, Start(run[|run| - 1]));
    } else {
      LastEnds(before, i, Start(run[|run| - 1]));
    }
  }

  lemma {:induction false} LastEnds(run: seq<Op>, i: nat, now: int)
    requires i < |run| && Sequential(run, now)
    ensures Start(run[i]) <= End(run[i]) <= now
  {
    if i < |run| - 1 {
      LastEnds(run[..|run| - 1], i, Start(run[|run| - 1]));
    }
  }

  /**
   Whatever happens to the table, no answer is older than a minute: it is what the table said
   before the operation at `i`, all of the operations from there on ended less than a minute ago,
   and none after it was an update that reached the cache.
   */
  lemma AnswersAreAtMostAMinuteOld(start: map<string, Flag>, run: seq<Op>, key: string, customerId: string, now: int)
      returns (i: nat)
    requires Sequential(run, now)
    ensures i <= |run|
    ensures Enabled(After(start, run), key, customerId, now) ==
      Resolved(Stored(After(start, run[..i]), key), customerId)
    ensures forall j :: i <= j < |run| ==> now - CACHE_TTL < End(run[j])
    ensures forall j :: i < j < |run| && run[j].key == key ==> !(run[j].Update? && run[j].dropped)
  {
    var s := After(start, run);
    if Cached(s, key, now).None? {
      assert run[..|run|] == run;
      return |run|;
    }
    i := CachedWasRead(start, run, key);
    forall j | i < j < |run| ensures End(run[i]) <= End(run[j]) {
      LaterInRun(run, i, j, now);
    }
  }

  /**
   An entry live now is the row itself, unless the row was changed behind the cache within the
   last minute. So with changes made through the service only, the cache is never stale.
   */
  lemma CachedIsStored(start: map<string, Flag>, run: seq<Op>, key: string, now: int)
    requires Sequential(run, now) && SettledSince(run, key, now - CACHE_TTL)
    requires Cached(After(start, run), key, now).Some?
    ensures Cached(After(start, run), key, now) == Stored(After(start, run), key)
  {
    var e := After(start, run).cache[key];
    var i := CachedWasRead(start, run, key);
    forall j | i < j < |run| ensures !GoesBehind(run[j], key) {
      LaterInRun(run, i, j, now);
    }
    RowUnchangedSince(start, run, i, key, e);
  }

  /** And then the answers, of a single lookup and of the listing of all flags, are the table's. */
  lemma EnabledIsResolved(start: map<string, Flag>, run: seq<Op>, key: string, customerId: string, now: int)
    requires Sequential(run, now) && SettledSince(run, key, now - CACHE_TTL)
    ensures var (s, all) := (After(start, run), AllResolved(After(start, run).flags, customerId));
      Enabled(s, key, customerId, now) == Resolved(Stored(s, key), customerId) == (key in all && all[key])
  {
    if Cached(After(start, run), key, now).Some? {
      CachedIsStored(start, run, key, now);
    }
  }

  function AllResolved(flags: map<string, Flag>, customerId: string): (r: map<string, bool>)
    ensures r.Keys == flags.Keys
    ensures forall key <- flags :: r[key] == flags[key].Resolve(customerId)
  {
    map key | key in flags :: flags[key].Resolve(customerId)
  }

  // ---------- when exactly the cache is right ----------

  /** Every live entry is the row. */
  ghost predicate Coherent(s: State, now: int) {
    forall key :: Cached(s, key, now).Some? ==> Cached(s, key, now) == Stored(s, key)
  }

  /** A change behind the cache, of a row with a live entry that differs from it afterwards. */
  predicate Outdates(s: State, op: Op) {
    GoesBehind(op, op.key) && Cached(s, op.key, op.at).Some? && Cached(s, op.key, op.at) != Stored(Step(s, op), op.key)
  }

  /** An operation keeps every live entry right exactly when it does not change a row behind an entry that differs. */
  lemma StepKeepsCoherent(s: State, op: Op)
    requires Coherent(s, Start(op)) && Start(op) <= End(op)
    ensures Coherent(Step(s, op), End(op)) <==> !Outdates(s, op)
  {
    var s' := Step(s, op);
    if Outdates(s, op) {
      assert Cached(s', op.key, End(op)) == Cached(s, op.key, op.at);
    } else {
      forall key | Cached(s', key, End(op)).Some? ensures Cached(s', key, End(op)) == Stored(s', key) {
        CoherentAt(s, op, key);
      }
    }
  }

  lemma CoherentAt(s: State, op: Op, key: string)
    requires Coherent(s, Start(op)) && Start(op) <= End(op) && !Outdates(s, op)
    requires Cached(Step(s, op), key, End(op)).Some?
    ensures Cached(Step(s, op), key, End(op)) == Stored(Step(s, op), key)
  {
    assert Cached(s, key, Start(op)).Some? ==> Cached(s, key, Start(op)) == Stored(s, key);
  }

  /** No operation of the run outdates a live entry. */
  ghost predicate OutdatesNothing(start: map<string, Flag>, run: seq<Op>) {
    run == [] ||
    (OutdatesNothing(start, run[..|run| - 1]) && !Outdates(After(start, run[..|run| - 1]), run[|run| - 1]))
  }

  lemma {:induction false} RunKeepsCoherent(start: map<string, Flag>, run: seq<Op>, now: int)
    requires Sequential(run, now) && OutdatesNothing(start, run)
    ensures Coherent(After(start, run), now)
  {
    if run != [] {
      var (before, op) := (run[..|run| - 1], run[|run| - 1]);
      RunKeepsCoherent(start, before, Start(op));
      StepKeepsCoherent(After(start, before), op);
      CoherentLater(After(start, run), End(op), now);
    }
  }

  lemma CoherentLater(s: State, t: int, now: int)
    requires Coherent(s, t) && t <= now
    ensures Coherent(s, now)
  {
    forall key | Cached(s, key, now).Some? ensures Cached(s, key, now) == Stored(s, key) {
      assert Cached(s, key, t) == Cached(s, key, now);
    }
  }

  /** After each operation of the run, every live entry is the row. */
  ghost predicate CoherentThroughout(start: map<string, Flag>, run: seq<Op>) {
    run == [] ||
    (CoherentThroughout(start, run[..|run| - 1]) && Coherent(After(start, run), End(run[|run| - 1])))
  }

  /** That holds exactly when none of them outdates one. */
  lemma {:induction false} CoherentThroughoutIff(start: map<string, Flag>, run: seq<Op>, now: int)
    requires Sequential(run, now)
    ensures OutdatesNothing(start, run) <==> CoherentThroughout(start, run)
  {
    if run != [] {
      var (before, op) := (run[..|run| - 1], run[|run| - 1]);
      CoherentThroughoutIff(start, before, Start(op));
      if OutdatesNothing(start, before) {
        RunKeepsCoherent(start, before, Start(op));
        StepKeepsCoherent(After(start, before), op);
      }
    }
  }

  /** At the end of any run a live entry is right exactly when the row is what it was at the lookup that read it. */
  lemma CachedIsStoredIff(start: map<string, Flag>, run: seq<Op>, key: string, now: int) returns (i: nat)
    requires Sequential(run, now) && Cached(After(start, run), key, now).Some?
    ensures ReadBy(start, run, i, key, After(start, run).cache[key])
    ensures Cached(After(start, run), key, now) == Stored(After(start, run), key) <==>
      Stored(After(start, run), key) == Stored(After(start, run[..i]), key)
  {
    i := CachedWasRead(start, run, key);
  }

  /**
   An update whose cache entry is not dropped is answered from the old one for a minute, and one that
   is dropped at once.
   */
  lemma UndroppedUpdateLingers(f: Flag, u: UpdateInput, dropped: bool, t: int, now: int)
    requires t <= now
    ensures var run := [Lookup(f.key, t, t), Update(f.key, u, t, dropped)];
      && Sequential(run, now)
      && Loaded(After(map[f.key := f], run), f.key, now) ==
        Some(if !dropped && now < t + CACHE_TTL then f else Patched(f, u))
  {
    var (first, second) := (Lookup(f.key, t, t), Update(f.key, u, t, dropped));
    var filled := State(map[f.key := f], map[f.key := Entry(f, t + CACHE_TTL)]);
    TwoSteps(map[f.key := f], first, second, now);
    assert Step(State(map[f.key := f], map[]), first) == filled;
  }

  lemma Snoc(start: map<string, Flag>, run: seq<Op>, op: Op, now: int)
    ensures After(start, run + [op]) == Step(After(start, run), op)
    ensures Sequential(run + [op], now) <==> Sequential(run, Start(op)) && Start(op) <= End(op) <= now
  {
    assert (run + [op])[..|run + [op]| - 1] == run;
  }

  lemma TwoSteps(start: map<string, Flag>, first: Op, second: Op, now: int)
    ensures After(start, [first, second]) == Step(Step(State(start, map[]), first), second)
    ensures Sequential([first, second], now) <==>
      Start(first) <= End(first) <= Start(second) <= End(second) <= now
  {
    Snoc(start, [], first, Start(second));
    Snoc(start, [first], second, now);
    assert [] + [first] == [first] && [first] + [second] == [first, second];
  }

  /** A row removed behind the cache is still answered from it, for a minute to the nanosecond. */
  lemma RemovedRowLingers(f: Flag, customerId: string, t: int, now: int)
    requires t <= now && f.Resolve(customerId)
    ensures var run := [Lookup(f.key, t, t), Alter(f.key, None, t)];
      && Sequential(run, now)
      && (Enabled(After(map[f.key := f], run), f.key, customerId, now) <==> now < t + CACHE_TTL)
  {
    var (first, second) := (Lookup(f.key, t, t), Alter(f.key, None, t));
    var filled := State(map[f.key := f], map[f.key := Entry(f, t + CACHE_TTL)]);
    TwoSteps(map[f.key := f], first, second, now);
    assert Step(State(map[f.key := f], map[]), first) == filled;
  }

  // ---------- partial updates ----------

  /** What the last update of the key that gave the field gave. */
  function LastGiven<T>(run: seq<Op>, key: string, field: UpdateInput -> Option<T>, initial: T): T {
    if run == [] then initial
    else
      var op := run[|run| - 1];
      if op.Update? && op.key == key && field(op.input).Some? then field(op.input).value
      else LastGiven(run[..|run| - 1], key, field, initial)
  }

  const GLOBALLY: UpdateInput -> Option<bool> := (u: UpdateInput) => u.enabledGlobally
  const OVERRIDES: UpdateInput -> Option<map<string, bool>> := (u: UpdateInput) => u.overrides
  const DEFAULT: UpdateInput -> Option<bool> := (u: UpdateInput) => u.defaultValue
  const DESCRIPTION: UpdateInput -> Option<string> := (u: UpdateInput) => u.description

  predicate Updated(run: seq<Op>, key: string) {
    exists op <- run :: op.Update? && op.key == key
  }

  function LastFields(run: seq<Op>, key: string, f: Flag): Flag {
    Flag(f.key, LastGiven(run, key, GLOBALLY, f.enabledGlobally), LastGiven(run, key, OVERRIDES, f.overrides),
         LastGiven(run, key, DEFAULT, f.defaultValue), LastGiven(run, key, DESCRIPTION, f.description))
  }

  lemma LastFieldsArePatched(run: seq<Op>, key: string, f: Flag)
    requires run != []
    ensures var (before, op) := (LastFields(run[..|run| - 1], key, f), run[|run| - 1]);
      LastFields(run, key, f) == if op.Update? && op.key == key then Patched(before, op.input) else before
  {}

  lemma UpdatedAtLast(run: seq<Op>, key: string)
    requires run != []
    ensures var op := run[|run| - 1];
      Updated(run, key) <==> Updated(run[..|run| - 1], key) || (op.Update? && op.key == key)
  {
    assert run == run[..|run| - 1] + [run[|run| - 1]];
  }

  /** Each field of a row is the last value given for it, since no update touches what it does not give. */
  lemma {:induction false} FieldsAreLastGiven(start: map<string, Flag>, run: seq<Op>, key: string)
    requires forall op <- run :: op.key == key ==> !op.Alter?
    ensures Stored(After(start, run), key) ==
      if key in start then Some(LastFields(run, key, start[key]))
      else if Updated(run, key) then Some(LastFields(run, key, Blank(key)))
      else None
  {
    if run != [] {
      var before := run[..|run| - 1];
      FieldsAreLastGiven(start, before, key);
      var f := if key in start then start[key] else Blank(key);
      LastFieldsArePatched(run, key, f);
      UpdatedAtLast(run, key);
      if !Updated(before, key) {
        NothingGiven(before, key, f);
      }
    }
  }

  lemma {:induction false} NothingGiven(run: seq<Op>, key: string, f: Flag)
    requires !Updated(run, key)
    ensures LastFields(run, key, f) == f
  {
    if run != [] {
      UpdatedAtLast(run, key);
      NothingGiven(run[..|run| - 1], key, f);
      LastFieldsArePatched(run, key, f);
    }
  }

  /**
   In any run that changes rows through updates only, all but those of the last minute seen by the
   cache, a customer's answer is decided by the last values given: the override, if there is one
   for the customer; else on if switched on for everyone; else the default. A flag that nobody
   made is off. The listing of all flags says the same.
   */
  lemma LastGivenDecides(start: map<string, Flag>, run: seq<Op>, key: string, customerId: string, now: int)
    requires Sequential(run, now) && forall op <- run :: op.key == key ==> !op.Alter?
    requires SettledSince(run, key, now - 60 * SECOND)
    ensures var overrides := LastGiven(run, key, OVERRIDES, if key in start then start[key].overrides else map[]);
      var globally := LastGiven(run, key, GLOBALLY, key in start && start[key].enabledGlobally);
      var otherwise := LastGiven(run, key, DEFAULT, key in start && start[key].defaultValue);
      var (known, s) := (key in start || Updated(run, key), After(start, run));
      var on := known && if customerId != "" && customerId in overrides then overrides[customerId]
        else globally || otherwise;
      && Enabled(s, key, customerId, now) == on
      && (key in AllResolved(s.flags, customerId) <==> known)
      && (known ==> AllResolved(s.flags, customerId)[key] == on)
  {
    EnabledIsResolved(start, run, key, customerId, now);
    FieldsAreLastGiven(start, run, key);
  }
}
