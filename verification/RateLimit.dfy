/**
 The in-memory rate limiter: a log of hits per key, compacted in place on each call and
 swept for dead keys now and then. It refines a naive limiter that never forgets a hit.
 */
module RateLimit {

  const SWEEP_EVERY := 256

  datatype Limiter = Limiter(hits: map<string, seq<int>>, sweepCount: nat)

  datatype Policy = Policy(limit: int, window: int)

  datatype Call = Call(key: string, now: int)

  const FRESH := Limiter(map[], 0)

  // ---------- one call ----------

  /** The instants after the cutoff. */
  function Recent(ts: seq<int>, cutoff: int): seq<int> {
    if ts == [] then []
    else Recent(ts[..|ts| - 1], cutoff) + if ts[|ts| - 1] > cutoff then [ts[|ts| - 1]] else []
  }

  function At(hits: map<string, seq<int>>, key: string): seq<int> {
    if key in hits then hits[key] else []
  }

  predicate Alive(ts: seq<int>, cutoff: int) {
    exists t <- ts :: t > cutoff
  }

  function Swept(hits: map<string, seq<int>>, cutoff: int): map<string, seq<int>> {
    map k | k in hits && Alive(hits[k], cutoff) :: hits[k]
  }

  /** What is kept of a key's hits when it is called. */
  function Kept(p: Policy, l: Limiter, c: Call): seq<int> {
    Recent(At(l.hits, c.key), c.now - p.window)
  }

  predicate Sweeps(p: Policy, l: Limiter, c: Call) {
    |Kept(p, l, c)| < p.limit && l.sweepCount + 1 >= SWEEP_EVERY
  }

  /** The hits after a call, before any sweep. */
  function Touched(p: Policy, l: Limiter, c: Call): map<string, seq<int>> {
    var kept := Kept(p, l, c);
    l.hits[c.key := if |kept| >= p.limit then kept else kept + [c.now]]
  }

  /** The limiter after a call, and its answer. */
  function Step(p: Policy, l: Limiter, c: Call): (Limiter, bool) {
    var hits := Touched(p, l, c);
    if |Kept(p, l, c)| >= p.limit then (l.(hits := hits), false)
    else if Sweeps(p, l, c) then (Limiter(Swept(hits, c.now - p.window), 0), true)
    else (Limiter(hits, l.sweepCount + 1), true)
  }

  // ---------- runs, and the naive limiter ----------

  function After(p: Policy, calls: seq<Call>): Limiter {
    if calls == [] then FRESH
    else Step(p, After(p, calls[..|calls| - 1]), calls[|calls| - 1]).0
  }

  /** The instants after the cutoff at which a key was hit. */
  function Times(history: seq<Call>, key: string, cutoff: int): seq<int> {
    if history == [] then []
    else
      var h := history[|history| - 1];
      Times(history[..|history| - 1], key, cutoff) + if h.key == key && h.now > cutoff then [h.now] else []
  }

  /** The naive limiter counts the allowed hits of the whole history that fall in the window. */
  predicate NaiveAllows(p: Policy, history: seq<Call>, c: Call) {
    |Times(history, c.key, c.now - p.window)| < p.limit
  }

  /** Every call the naive limiter allows, never pruned. */
  function History(p: Policy, calls: seq<Call>): seq<Call> {
    if calls == [] then []
    else
      var (before, c) := (History(p, calls[..|calls| - 1]), calls[|calls| - 1]);
      if NaiveAllows(p, before, c) then before + [c] else before
  }

  ghost predicate ClockForward(calls: seq<Call>) {
    forall i, j :: 0 <= i < j < |calls| ==> calls[i].now <= calls[j].now
  }

  // ---------- refinement ----------

  lemma {:induction false} RecentRecent(ts: seq<int>, c: int, d: int)
    requires c <= d
    ensures Recent(Recent(ts, c), d) == Recent(ts, d)
  {
    if ts != [] {
      var (init, t) := (ts[..|ts| - 1], ts[|ts| - 1]);
      RecentRecent(init, c, d);
      if t > c {
        RecentSnoc(Recent(init, c), t, d);
      } else {
        assert Recent(init, c) + [] == Recent(init, c);
      }
    }
  }

  lemma RecentSnoc(ts: seq<int>, t: int, cutoff: int)
    ensures Recent(ts + [t], cutoff) == Recent(ts, cutoff) + if t > cutoff then [t] else []
  {
    assert (ts + [t])[..|ts + [t]| - 1] == ts;
  }

  lemma TimesSnoc(history: seq<Call>, c: Call, key: string, cutoff: int)
    ensures Times(history + [c], key, cutoff) == Times(history, key, cutoff) + if c.key == key
      && c.now > cutoff then [c.now] else []
  {
    assert (history + [c])[..|history + [c]| - 1] == history;
  }

  lemma {:induction false} DeadHasNoRecent(ts: seq<int>, cutoff: int)
    requires !Alive(ts, cutoff)
    ensures Recent(ts, cutoff) == []
  {
    if ts != [] {
      var init := ts[..|ts| - 1];
      assert ts[|ts| - 1] in ts && forall t <- init :: t in ts;
      DeadHasNoRecent(ts[..|ts| - 1], cutoff);
    }
  }

  /** From the cutoff on, the limiter remembers of each key exactly what the history holds. */
  ghost predicate Remembers(l: Limiter, history: seq<Call>, cutoff: int) {
    forall key, c :: c >= cutoff ==> Recent(At(l.hits, key), c) == Times(history, key, c)
  }

  /** A sweep drops nothing that could still count. */
  lemma SweepForgetsNothing(hits: map<string, seq<int>>, cutoff: int, key: string, d: int)
    requires cutoff <= d
    ensures Recent(At(Swept(hits, cutoff), key), d) == Recent(At(hits, key), d)
  {
    if key in hits && !Alive(hits[key], cutoff) {
      DeadHasNoRecent(hits[key], cutoff);
      RecentRecent(hits[key], cutoff, d);
    }
  }

  /** What a call leaves of a key's hits. */
  lemma TouchedAt(p: Policy, l: Limiter, c: Call, key: string)
    ensures At(Touched(p, l, c), key) ==
      if key != c.key then At(l.hits, key)
      else if |Kept(p, l, c)| < p.limit then Kept(p, l, c) + [c.now]
      else Kept(p, l, c)
  {}

  lemma OwnRemembers(ts: seq<int>, history: seq<Call>, c: Call, allowed: bool, cutoff: int, d: int)
    requires Recent(ts, d) == Times(history, c.key, d) && cutoff <= d
    ensures Recent(if allowed then Recent(ts, cutoff) + [c.now] else Recent(ts, cutoff), d) ==
      Times(if allowed then history + [c] else history, c.key, d)
  {
    KeptRemembers(ts, history, c, cutoff, d);
  }

  lemma TouchRemembers(p: Policy, l: Limiter, history: seq<Call>, c: Call, key: string, d: int)
    requires Kept(p, l, c) == Times(history, c.key, c.now - p.window)
    requires Recent(At(l.hits, key), d) == Times(history, key, d) && c.now - p.window <= d
    ensures Recent(At(Touched(p, l, c), key), d) ==
      Times(if NaiveAllows(p, history, c) then history + [c] else history, key, d)
  {
    TouchedAt(p, l, c, key);
    var allowed := NaiveAllows(p, history, c);
    if key != c.key {
      OtherRemembers(history, c, key, allowed, d);
    } else {
      OwnRemembers(At(l.hits, key), history, c, allowed, c.now - p.window, d);
    }
  }

  lemma OtherRemembers(history: seq<Call>, c: Call, key: string, allowed: bool, d: int)
    requires key != c.key
    ensures Times(if allowed then history + [c] else history, key, d) == Times(history, key, d)
  {
    TimesOfOther(history, c, key, d);
  }

  lemma TimesOfOther(history: seq<Call>, c: Call, key: string, d: int)
    requires key != c.key
    ensures Times(history + [c], key, d) == Times(history, key, d)
  {
    TimesSnoc(history, c, key, d);
    assert Times(history, key, d) + [] == Times(history, key, d);
  }

  lemma KeptRemembers(ts: seq<int>, history: seq<Call>, c: Call, cutoff: int, d: int)
    requires Recent(ts, d) == Times(history, c.key, d) && cutoff <= d
    ensures Recent(Recent(ts, cutoff), d) == Times(history, c.key, d)
    ensures Recent(Recent(ts, cutoff) + [c.now], d) == Times(history + [c], c.key, d)
  {
    RecentRecent(ts, cutoff, d);
    RecentSnoc(Recent(ts, cutoff), c.now, d);
    TimesSnoc(history, c, c.key, d);
  }

  lemma KeptIsExact(p: Policy, l: Limiter, history: seq<Call>, since: int, c: Call)
    requires Remembers(l, history, since) && since <= c.now - p.window
    ensures Kept(p, l, c) == Times(history, c.key, c.now - p.window)
  {}

  /** One call: the answers agree, and what is remembered stays exact. */
  lemma StepRefines(p: Policy, l: Limiter, history: seq<Call>, since: int, c: Call)
    requires Remembers(l, history, since) && since <= c.now - p.window
    ensures Step(p, l, c).1 <==> NaiveAllows(p, history, c)
    ensures Remembers(Step(p, l, c).0, if NaiveAllows(p, history, c) then history + [c] else history, c.now - p.window)
  {
    var cutoff := c.now - p.window;
    var (l', history') := (Step(p, l, c).0, if NaiveAllows(p, history, c) then history + [c] else history);
    KeptIsExact(p, l, history, since, c);
    forall key, d | d >= cutoff ensures Recent(At(l'.hits, key), d) == Times(history', key, d) {
      TouchRemembers(p, l, history, c, key, d);
      SweepForgetsNothing(Touched(p, l, c), cutoff, key, d);
    }
  }

  lemma {:induction false} RunRefines(p: Policy, calls: seq<Call>)
    requires ClockForward(calls)
    ensures calls == [] ==> forall c :: Remembers(After(p, calls), History(p, calls), c)
    ensures calls != [] ==> Remembers(After(p, calls), History(p, calls), calls[|calls| - 1].now - p.window)
  {
    if calls != [] {
      var (before, c) := (calls[..|calls| - 1], calls[|calls| - 1]);
      assert forall i :: 0 <= i < |before| ==> before[i] == calls[i];
      RunRefines(p, before);
      var since := if before == [] then c.now - p.window else before[|before| - 1].now - p.window;
      StepRefines(p, After(p, before), History(p, before), since, c);
    }
  }

  /**
   In any run with a monotone clock, a call is allowed exactly when fewer than `limit` allowed
   hits of its key lie after now - window in the whole unpruned history: neither compaction
   nor sweeps ever change an answer.
   */
  lemma AllowIsNaive(p: Policy, calls: seq<Call>, c: Call)
    requires ClockForward(calls + [c])
    ensures Step(p, After(p, calls), c).1 <==> NaiveAllows(p, History(p, calls), c)
  {
    var all := calls + [c];
    assert forall i :: 0 <= i < |calls| ==> all[i] == calls[i];
    assert calls != [] ==> all[|calls| - 1].now <= all[|calls|].now;
    RunRefines(p, calls);
    StepRefines(p, After(p, calls), History(p, calls),
                if calls == [] then c.now - p.window else calls[|calls| - 1].now - p.window, c);
  }

  // ---------- no window holds more than the limit ----------

  /** Allowed hits of a key in the half-open window (from, to]. */
  function CountIn(history: seq<Call>, key: string, from: int, to: int): nat {
    if history == [] then 0
    else
      var h := history[|history| - 1];
      CountIn(history[..|history| - 1], key, from, to) + if h.key == key && from < h.now <= to then 1 else 0
  }

  lemma {:induction false} CountWithinTimes(history: seq<Call>, key: string, from: int, to: int, cutoff: int)
    requires cutoff <= from
    ensures CountIn(history, key, from, to) <= |Times(history, key, cutoff)|
  {
    if history != [] {
      CountWithinTimes(history[..|history| - 1], key, from, to, cutoff);
    }
  }

  /** Wherever a window ends, it holds at most `limit` allowed hits of a key. */
  lemma {:induction false} NoWindowExceedsLimit(p: Policy, calls: seq<Call>, key: string, end: int)
    requires ClockForward(calls) && p.limit >= 0
    ensures CountIn(History(p, calls), key, end - p.window, end) <= p.limit
  {
    if calls != [] {
      var (before, c) := (calls[..|calls| - 1], calls[|calls| - 1]);
      var history := History(p, before);
      NoWindowExceedsLimit(p, before, key, end);
      if NaiveAllows(p, history, c) {
        assert (history + [c])[..|history + [c]| - 1] == history;
        if c.now <= end {
          CountWithinTimes(history, key, end - p.window, end, c.now - p.window);
        }
      }
    }
  }

  // ---------- how many keys are kept ----------

  /** The number of keys the last sweep left. */
  function Survivors(p: Policy, calls: seq<Call>): nat {
    if calls == [] then 0
    else
      var (before, c) := (calls[..|calls| - 1], calls[|calls| - 1]);
      if Sweeps(p, After(p, before), c) then |After(p, calls).hits| else Survivors(p, before)
  }

  lemma KeysOfUpdate(m: map<string, seq<int>>, k: string, v: seq<int>)
    ensures |m[k := v]| <= |m| + if k in m then 0 else 1
  {
    assert m[k := v].Keys == m.Keys + {k};
    if k in m {
      assert m.Keys + {k} == m.Keys;
    }
  }

  /** The map holds at most the survivors of the last sweep and one key per call allowed since. */
  lemma {:induction false} KeysAreBounded(p: Policy, calls: seq<Call>)
    requires p.limit >= 1
    ensures var l := After(p, calls); |l.hits| <= Survivors(p, calls) + l.sweepCount && l.sweepCount < SWEEP_EVERY
  {
    if calls != [] {
      var (before, c) := (calls[..|calls| - 1], calls[|calls| - 1]);
      KeysAreBounded(p, before);
      var l := After(p, before);
      var kept := Kept(p, l, c);
      KeysOfUpdate(l.hits, c.key, kept);
      KeysOfUpdate(l.hits, c.key, kept + [c.now]);
    }
  }

  lemma SweptIsRest(hits: map<string, seq<int>>, gone: set<string>, cutoff: int)
    requires forall k <- hits :: k in gone <==> !Alive(hits[k], cutoff)
    ensures hits - gone == Swept(hits, cutoff)
  {}

  /** A limiter with one more call counted: swept if that makes enough. */
  function Counted(l: Limiter, cutoff: int): Limiter {
    if l.sweepCount + 1 >= SWEEP_EVERY then Limiter(Swept(l.hits, cutoff), 0) else l.(sweepCount := l.sweepCount + 1)
  }

  /** A limiter with only the recent hits of the key called. */
  function Pruned(p: Policy, l: Limiter, c: Call): Limiter {
    l.(hits := l.hits[c.key := Kept(p, l, c)])
  }

  /** A limiter with the hit of an allowed call recorded and counted. */
  function Admitted(p: Policy, l: Limiter, c: Call): Limiter {
    Counted(l.(hits := l.hits[c.key := At(l.hits, c.key) + [c.now]]), c.now - p.window)
  }

  lemma StepByCases(p: Policy, l: Limiter, c: Call)
    ensures Step(p, l, c) ==
      if |Kept(p, l, c)| < p.limit then (Admitted(p, Pruned(p, l, c), c), true) else (Pruned(p, l, c), false)
  {
    var kept := Kept(p, l, c);
    assert l.hits[c.key := kept][c.key := kept + [c.now]] == l.hits[c.key := kept + [c.now]];
  }

  // ---------- the limiter object ----------

  /** A slice: the first `len` cells of its backing array. */
  datatype Slice = Slice(data: array<int>, len: nat)

  class MemoryRateLimiter {
    const limit: int
    const window: int
    var hits: map<string, Slice>
    var sweepCount: nat
    ghost var owner: map<array<int>, string>   // the key each backing array belongs to
    ghost var contents: map<string, seq<int>>  // what each slice holds

    ghost predicate Valid()
      reads this, owner.Keys
    {
      && contents.Keys == hits.Keys
      && (forall k <- hits ::
          && hits[k].data in owner && owner[hits[k].data] == k
          && hits[k].len <= hits[k].data.Length && contents[k] == hits[k].data[..hits[k].len])
    }

    ghost function Model(): Limiter
      reads this
    {
      Limiter(contents, sweepCount)
    }

    constructor (limit: int, window: int)
      ensures Valid() && Model() == FRESH && owner == map[]
      ensures this.limit == limit && this.window == window
    {
      this.limit, this.window := limit, window;
      hits, sweepCount, owner, contents := map[], 0, map[], map[];
    }

    /** Moves the recent instants of `a[..n]` to the front, in place. */
    static method Compact(a: array<int>, n: nat, cutoff: int) returns (m: nat)
      requires n <= a.Length
      modifies a
      ensures m <= n && a[..m] == Recent(old(a[..n]), cutoff)
    {
      m := 0;
      for i := 0 to n
        invariant m <= i && a[..m] == Recent(old(a[..i]), cutoff)
        invariant forall j :: i <= j < n ==> a[j] == old(a[j])
      {
        RecentSnoc(old(a[..i]), a[i], cutoff);
        assert old(a[..i + 1]) == old(a[..i]) + [a[i]];
        if a[i] > cutoff {
          a[m] := a[i];
          m := m + 1;
        }
      }
    }

    /** Appends in place when the backing array has room, and to a larger copy otherwise. */
    static method Append(s: Slice, t: int) returns (r: Slice)
      requires s.len <= s.data.Length
      modifies s.data
      ensures r.len == s.len + 1 <= r.data.Length && r.data[..r.len] == old(s.data[..s.len]) + [t]
      ensures r.data == s.data || fresh(r.data)
    {
      if s.len < s.data.Length {
        s.data[s.len] := t;
        r := Slice(s.data, s.len + 1);
      } else {
        var grown := new int[2 * s.len + 1];
        for i := 0 to s.len
          invariant grown[..i] == s.data[..i]
          invariant s.data[..] == old(s.data[..])
        {
          grown[i] := s.data[i];
        }
        grown[s.len] := t;
        r := Slice(grown, s.len + 1);
      }
    }

    static method AnyAfter(a: array<int>, n: nat, cutoff: int) returns (alive: bool)
      requires n <= a.Length
      ensures alive <==> Alive(a[..n], cutoff)
    {
      for i := 0 to n
        invariant forall j :: 0 <= j < i ==> a[j] <= cutoff
      {
        if a[i] > cutoff {
          assert a[i] in a[..n];
          return true;
        }
      }
      alive := false;
    }

    /** Deletes every key without a hit after the cutoff; keys are visited in no particular order. */
    method DeleteDead(cutoff: int) returns (ghost gone: set<string>)
      requires Valid()
      modifies this`hits
      ensures hits == old(hits) - gone && forall k <- contents :: k in gone <==> !Alive(contents[k], cutoff)
    {
      gone := {};
      var slices, todo := hits, hits.Keys;
      while todo != {}
        invariant hits == slices - gone && todo <= slices.Keys
        invariant forall k <- slices :: k !in todo ==> (k in gone <==> !Alive(contents[k], cutoff))
        invariant todo !! gone
      {
        var k :| k in todo;
        todo := todo - {k};
        var alive := AnyAfter(slices[k].data, slices[k].len, cutoff);
        if !alive {
          hits := hits - {k};
          gone := gone + {k};
        }
      }
    }

    method SweepExpired(cutoff: int)
      requires Valid()
      modifies this`hits, this`contents
      ensures Valid()
      ensures contents == Swept(old(contents), cutoff)
    {
      ghost var gone := DeleteDead(cutoff);
      SweptIsRest(contents, gone, cutoff);
      contents := contents - gone;
    }

    /** The recent hits of a key, compacted in the key's own array. */
    method KeepRecent(key: string, cutoff: int) returns (kept: Slice)
      requires Valid()
      modifies this, owner.Keys
      ensures Valid() && fresh(owner.Keys - old(owner.Keys))
      ensures key in hits && hits[key] == kept && sweepCount == old(sweepCount)
      ensures contents == old(contents)[key := Recent(At(old(contents), key), cutoff)]
      ensures kept.len == |Recent(At(old(contents), key), cutoff)|
    {
      if key in hits {
        var m := Compact(hits[key].data, hits[key].len, cutoff);
        kept := Slice(hits[key].data, m);
      } else {
        var none := new int[0];
        kept := Slice(none, 0);
        owner := owner[none := key];
      }
      contents := contents[key := Recent(At(contents, key), cutoff)];
      hits := hits[key := kept];
    }

    /** Records a hit after the kept ones. */
    method Record(key: string, now: int)
      requires Valid() && key in hits
      modifies this, owner.Keys
      ensures Valid() && fresh(owner.Keys - old(owner.Keys))
      ensures contents == old(contents)[key := old(contents)[key] + [now]] && sweepCount == old(sweepCount)
    {
      var appended := Append(hits[key], now);
      owner := owner[appended.data := key];
      contents := contents[key := contents[key] + [now]];
      hits := hits[key := appended];
    }

    /** Counts an allowed call, and sweeps when enough have been counted. */
    method CountCall(cutoff: int)
      requires Valid()
      modifies this`hits, this`contents, this`sweepCount
      ensures Valid()
      ensures Model() == Counted(Limiter(old(contents), old(sweepCount)), cutoff)
    {
      sweepCount := sweepCount + 1;
      if sweepCount >= SWEEP_EVERY {
        sweepCount := 0;
        SweepExpired(cutoff);
      }
    }

    /** The key's slice, compacted: the first part of every call. */
    method Prune(key: string, now: int) returns (kept: nat)
      requires Valid()
      modifies this, owner.Keys
      ensures Valid() && fresh(owner.Keys - old(owner.Keys)) && key in hits
      ensures var (p, c) := (Policy(limit, window), Call(key, now));
        Model() == Pruned(p, old(Model()), c) && kept == |Kept(p, old(Model()), c)|
    {
      var slice := KeepRecent(key, now - window);
      kept := slice.len;
    }

    /** Records and counts an allowed call. */
    method Admit(key: string, now: int)
      requires Valid() && key in hits
      modifies this, owner.Keys
      ensures Valid() && fresh(owner.Keys - old(owner.Keys))
      ensures Model() == Admitted(Policy(limit, window), old(Model()), Call(key, now))
    {
      Record(key, now);
      CountCall(now - window);
    }

    method Allow(key: string, now: int) returns (ok: bool)
      requires Valid()
      modifies this, owner.Keys
      ensures Valid() && fresh(owner.Keys - old(owner.Keys))
      ensures (Model(), ok) == Step(Policy(limit, window), old(Model()), Call(key, now))
    {
      StepByCases(Policy(limit, window), Model(), Call(key, now));
      var kept := Prune(key, now);
      if kept >= limit {
        return false;
      }
      Admit(key, now);
      ok := true;
    }
  }
}
