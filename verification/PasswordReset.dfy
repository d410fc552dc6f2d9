/**
 Password reset: tokens issued behind one rate limiter and consumed behind another. Random
 tokens, password hashes and clock readings are parameters; the token hash is injective.
 */
module PasswordReset {
  import opened Wrappers
  import opened Clock
  import opened Receipts
  import opened RateLimit

  type Id = string

  const TOKEN_TTL := HOUR
  const FORGOT := Policy(5, HOUR)
  const RESET := Policy(10, HOUR)
  const MIN_PASSWORD := 8

  datatype Admin = Admin(active: bool, passwordHash: string)

  datatype Token = Token(id: Id, adminId: Id, hash: Digest, expiresAt: int, used: bool)

  /** `directory` is the unique index of emails; no request changes it. */
  datatype Site = Site(
    directory: map<string, Id>, admins: map<Id, Admin>, tokens: seq<Token>, forgot: Limiter, reset: Limiter)

  datatype Error = TooManyRequests | PasswordTooShort | InvalidToken | AdminNotFound | TokenClash | MailFailed

  /** A request reads the clock for its limiter and again for the token. */
  datatype Request =
    | Forgot(email: string, plain: string, id: Id, limiterNow: int, tokenNow: int, mailed: bool)
    | Reset(ip: string, plain: string, password: string, passwordHash: string, limiterNow: int, now: int)

  function NormalizeEmail(n: Normaliser, email: string): string {
    TrimSpace(Lower(n, email))
  }

  function ActiveAdmin(s: Site, email: string): Option<Id> {
    if email in s.directory && s.directory[email] in s.admins && s.admins[s.directory[email]].active
    then Some(s.directory[email]) else None
  }

  function FindByHash(tokens: seq<Token>, hash: Digest): (r: Option<Token>)
    ensures r.Some? ==> r.value in tokens && r.value.hash == hash
    ensures r.None? <==> forall t <- tokens :: t.hash != hash
  {
    if tokens == [] then None
    else if tokens[|tokens| - 1].hash == hash then Some(tokens[|tokens| - 1])
    else FindByHash(tokens[..|tokens| - 1], hash)
  }

  /** The used marks of a consumption: the token itself, and every other unused one of the admin. */
  function Consumed(tokens: seq<Token>, tokenId: Id, adminId: Id): (r: seq<Token>)
    ensures |r| == |tokens|
    ensures forall i :: 0 <= i < |tokens| ==>
      r[i] == tokens[i].(used := tokens[i].used || tokens[i].id == tokenId || tokens[i].adminId == adminId)
  {
    seq(|tokens|, i requires 0 <= i < |tokens| =>
      tokens[i].(used := tokens[i].used || tokens[i].id == tokenId || tokens[i].adminId == adminId))
  }

  // ---------- requests ----------

  /** What follows once the limiter has let a forgot-password request through. */
  function Issue(s: Site, email: string, q: Request): (Site, Option<Error>)
    requires q.Forgot?
  {
    var admin := ActiveAdmin(s, email);
    if admin.None? then (s, None)
    else
      var t := Token(q.id, admin.value, Sha256(q.plain), q.tokenNow + TOKEN_TTL, false);
      if exists u <- s.tokens :: u.hash == t.hash || u.id == t.id then (s, Some(TokenClash))
      else (s.(tokens := s.tokens + [t]), if q.mailed then None else Some(MailFailed))
  }

  /** Consuming a token is one transaction: without the admin nothing changes. */
  function Consume(s: Site, t: Token, passwordHash: string): (Site, Option<Error>) {
    if t.adminId !in s.admins then (s, Some(AdminNotFound))
    else (s.(admins := s.admins[t.adminId := s.admins[t.adminId].(passwordHash := passwordHash)],
             tokens := Consumed(s.tokens, t.id, t.adminId)), None)
  }

  /** What follows once the limiter has let a reset request through. */
  function Redeem(s: Site, q: Request): (Site, Option<Error>)
    requires q.Reset?
  {
    if |q.password| < MIN_PASSWORD then (s, Some(PasswordTooShort))
    else
      var t := FindByHash(s.tokens, Sha256(q.plain));
      if t.None? || t.value.used || q.now > t.value.expiresAt then (s, Some(InvalidToken))
      else Consume(s, t.value, q.passwordHash)
  }

  function Handle(n: Normaliser, s: Site, q: Request): (Site, Option<Error>) {
    match q
    case Forgot(email, _, _, limiterNow, _, _) =>
      var (l, ok) := Step(FORGOT, s.forgot, Call(NormalizeEmail(n, email), limiterNow));
      var s' := s.(forgot := l);
      if !ok then (s', Some(TooManyRequests)) else Issue(s', NormalizeEmail(n, email), q)
    case Reset(ip, _, _, _, limiterNow, _) =>
      var (l, ok) := Step(RESET, s.reset, Call(ip, limiterNow));
      var s' := s.(reset := l);
      if !ok then (s', Some(TooManyRequests)) else Redeem(s', q)
  }

  // ---------- runs ----------

  function Opened(directory: map<string, Id>, admins: map<Id, Admin>): Site {
    Site(directory, admins, [], FRESH, FRESH)
  }

  /** The requests handled one after another. */
  function After(n: Normaliser, start: Site, run: seq<Request>): Site {
    if run == [] then start
    else Handle(n, After(n, start, run[..|run| - 1]), run[|run| - 1]).0
  }

  predicate Succeeds(n: Normaliser, start: Site, run: seq<Request>, i: nat)
    requires i < |run|
  {
    run[i].Reset? && Handle(n, After(n, start, run[..i]), run[i]).1 == None
  }

  // ---------- one consumption ----------

  /** A successful reset sets the password, and leaves the admin no unused token. */
  lemma ResetConsumesAll(n: Normaliser, s: Site, q: Request)
    requires q.Reset? && Handle(n, s, q).1 == None
    ensures var (s', t) := (Handle(n, s, q).0, FindByHash(s.tokens, Sha256(q.plain)));
      && t.Some? && !t.value.used && q.now <= t.value.expiresAt
      && t.value.adminId in s'.admins && s'.admins[t.value.adminId].passwordHash == q.passwordHash
      && (forall u <- s'.tokens :: u.adminId == t.value.adminId ==> u.used)
      && (forall id <- s.admins :: id != t.value.adminId ==> id in s'.admins && s'.admins[id] == s.admins[id])
  {}

  /** Any reset that fails, for a missing admin or otherwise, leaves every admin and token as it was. */
  lemma FailedResetChangesNothing(n: Normaliser, s: Site, q: Request)
    requires q.Reset? && Handle(n, s, q).1 != None
    ensures Handle(n, s, q).0.tokens == s.tokens && Handle(n, s, q).0.admins == s.admins
  {}

  lemma ForgotAnswer(n: Normaliser, s: Site, q: Request)
    requires q.Forgot?
    ensures var c := Call(NormalizeEmail(n, q.email), q.limiterNow);
      var (l, ok) := Step(FORGOT, s.forgot, c);
      Handle(n, s, q).1 == if ok then Issue(s.(forgot := l), c.key, q).1 else Some(TooManyRequests)
  {}

  /** The token can be stored, and its mail goes out. */
  predicate Delivers(s: Site, q: Request)
    requires q.Forgot?
  {
    q.mailed && forall u <- s.tokens :: u.hash != Sha256(q.plain) && u.id != q.id
  }

  lemma IssueAnswer(s: Site, email: string, q: Request)
    requires q.Forgot?
    ensures Issue(s, email, q).1 == None <==> ActiveAdmin(s, email).None? || Delivers(s, q)
  {}

  /**
   A caller cannot tell from the answer that an email belongs to an active admin exactly when
   the limiter refuses, or the token is stored and the mail goes out.
   */
  lemma AnswerHidesEmail(n: Normaliser, s: Site, q: Request)
    requires q.Forgot?
    ensures var key := NormalizeEmail(n, q.email);
      Handle(n, s, q).1 == Handle(n, s.(directory := s.directory - {key}), q).1 <==>
        ActiveAdmin(s, key).None? || !Step(FORGOT, s.forgot, Call(key, q.limiterNow)).1 || Delivers(s, q)
  {
    var key := NormalizeEmail(n, q.email);
    var (known, unknown) := (s, s.(directory := s.directory - {key}));
    var l := Step(FORGOT, s.forgot, Call(key, q.limiterNow)).0;
    ForgotAnswer(n, known, q);
    ForgotAnswer(n, unknown, q);
    IssueAnswer(known.(forgot := l), key, q);
    IssueAnswer(unknown.(forgot := l), key, q);
  }

  // ---------- each token works once ----------

  ghost predicate UniqueHashes(tokens: seq<Token>) {
    forall i, j :: 0 <= i < j < |tokens| ==> tokens[i].hash != tokens[j].hash && tokens[i].id != tokens[j].id
  }

  lemma IssueTokens(s: Site, email: string, q: Request)
    requires q.Forgot?
    ensures var s' := Issue(s, email, q).0;
      && s'.directory == s.directory && s'.forgot == s.forgot
      && (s'.tokens == s.tokens || (email in s.directory && NewToken(s.tokens, s'.tokens, s.directory[email], q)))
  {}

  /** A forgot-password request appends at most one token, new, unused and behind the limiter. */
  lemma ForgotTokens(n: Normaliser, s: Site, q: Request)
    requires q.Forgot?
    ensures var (s', c) := (Handle(n, s, q).0, Call(NormalizeEmail(n, q.email), q.limiterNow));
      && s'.directory == s.directory && s'.forgot == Step(FORGOT, s.forgot, c).0
      && (s'.tokens == s.tokens ||
          (Step(FORGOT, s.forgot, c).1 && c.key in s.directory && NewToken(s.tokens, s'.tokens, s.directory[c.key], q)))
  {
    var c := Call(NormalizeEmail(n, q.email), q.limiterNow);
    IssueTokens(s.(forgot := Step(FORGOT, s.forgot, c).0), c.key, q);
  }

  ghost predicate NewToken(ts: seq<Token>, us: seq<Token>, adminId: Id, q: Request)
    requires q.Forgot?
  {
    && us == ts + [Token(q.id, adminId, Sha256(q.plain), q.tokenNow + TOKEN_TTL, false)]
    && forall t <- ts :: t.hash != Sha256(q.plain) && t.id != q.id
  }

  ghost predicate OnlyUseDiffers(ts: seq<Token>, us: seq<Token>) {
    |us| == |ts| && forall i :: 0 <= i < |ts| ==> us[i] == ts[i].(used := us[i].used) && (ts[i].used ==> us[i].used)
  }

  lemma ResetTokens(n: Normaliser, s: Site, q: Request)
    requires q.Reset?
    ensures var s' := Handle(n, s, q).0;
      s'.directory == s.directory && s'.forgot == s.forgot && OnlyUseDiffers(s.tokens, s'.tokens)
  {}

  /** Later tokens extend earlier ones: none is lost or changed but for being used, which is for good. */
  ghost predicate Extends(ts: seq<Token>, us: seq<Token>) {
    |ts| <= |us| && OnlyUseDiffers(ts, us[..|ts|]) && (UniqueHashes(ts) ==> UniqueHashes(us))
  }

  lemma NewTokenExtends(ts: seq<Token>, us: seq<Token>, adminId: Id, q: Request)
    requires q.Forgot? && NewToken(ts, us, adminId, q)
    ensures Extends(ts, us)
  {
    assert us[..|ts|] == ts;
    forall i | 0 <= i < |ts| ensures us[i].hash != us[|ts|].hash && us[i].id != us[|ts|].id {
      assert ts[i] in ts;
    }
  }

  lemma UseExtends(ts: seq<Token>, us: seq<Token>)
    requires OnlyUseDiffers(ts, us)
    ensures Extends(ts, us)
  {
    assert us[..|ts|] == us;
  }

  lemma SameExtends(ts: seq<Token>)
    ensures Extends(ts, ts)
  {
    assert ts[..|ts|] == ts;
    forall i | 0 <= i < |ts| ensures ts[i] == ts[i].(used := ts[i].used) {}
  }

  lemma ForgotExtends(n: Normaliser, s: Site, q: Request)
    requires q.Forgot?
    ensures Extends(s.tokens, Handle(n, s, q).0.tokens)
  {
    var us := Handle(n, s, q).0.tokens;
    ForgotTokens(n, s, q);
    if us == s.tokens {
      SameExtends(s.tokens);
    } else {
      NewTokenExtends(s.tokens, us, s.directory[NormalizeEmail(n, q.email)], q);
    }
  }

  lemma HandleExtends(n: Normaliser, s: Site, q: Request)
    ensures Extends(s.tokens, Handle(n, s, q).0.tokens)
  {
    match q
    case Forgot(_, _, _, _, _, _) => ForgotExtends(n, s, q);
    case Reset(_, _, _, _, _, _) =>
      ResetTokens(n, s, q);
      UseExtends(s.tokens, Handle(n, s, q).0.tokens);
  }

  lemma {:induction false} RunKeepsHashes(n: Normaliser, start: Site, run: seq<Request>)
    requires UniqueHashes(start.tokens)
    ensures UniqueHashes(After(n, start, run).tokens)
  {
    if run != [] {
      RunKeepsHashes(n, start, run[..|run| - 1]);
      HandleExtends(n, After(n, start, run[..|run| - 1]), run[|run| - 1]);
    }
  }

  ghost predicate Spent(tokens: seq<Token>, hash: Digest) {
    exists t <- tokens :: t.hash == hash && t.used
  }

  lemma {:induction false} SpentForGood(n: Normaliser, start: Site, run: seq<Request>, k: nat, hash: Digest)
    requires UniqueHashes(start.tokens) && k <= |run| && Spent(After(n, start, run[..k]).tokens, hash)
    ensures Spent(After(n, start, run).tokens, hash)
  {
    if k == |run| {
      assert run[..k] == run;
    } else {
      var before := run[..|run| - 1];
      assert before[..k] == run[..k];
      SpentForGood(n, start, before, k, hash);
      RunKeepsHashes(n, start, before);
      var s := After(n, start, before);
      HandleExtends(n, s, run[|run| - 1]);
      var i :| 0 <= i < |s.tokens| && s.tokens[i].hash == hash && s.tokens[i].used;
      assert After(n, start, run).tokens[..|s.tokens|][i] == After(n, start, run).tokens[i];
      assert After(n, start, run).tokens[i] in After(n, start, run).tokens;
    }
  }

  lemma SuccessSpends(n: Normaliser, s: Site, q: Request)
    requires q.Reset? && Handle(n, s, q).1 == None
    ensures Spent(Handle(n, s, q).0.tokens, Sha256(q.plain))
  {
    var t := FindByHash(s.tokens, Sha256(q.plain)).value;
    var i :| 0 <= i < |s.tokens| && s.tokens[i] == t;
    assert Handle(n, s, q).0.tokens[i] in Handle(n, s, q).0.tokens;
  }

  lemma SpentFails(n: Normaliser, s: Site, q: Request)
    requires q.Reset? && UniqueHashes(s.tokens) && Spent(s.tokens, Sha256(q.plain))
    ensures Handle(n, s, q).1 != None
  {
    var found := FindByHash(s.tokens, Sha256(q.plain));
    var t :| t in s.tokens && t.hash == Sha256(q.plain) && t.used;
    var i, j :| 0 <= i < |s.tokens| && 0 <= j < |s.tokens| && s.tokens[i] == t && s.tokens[j] == found.value;
    assert i == j;
  }

  /** In any run, no token works twice. */
  lemma TokenWorksOnce(n: Normaliser, start: Site, run: seq<Request>, i: nat, j: nat)
    requires UniqueHashes(start.tokens) && i < j < |run|
    requires Succeeds(n, start, run, i) && run[j].Reset? && run[j].plain == run[i].plain
    ensures !Succeeds(n, start, run, j)
  {
    SuccessSpends(n, After(n, start, run[..i]), run[i]);
    assert run[..i + 1][..i] == run[..i] && run[..j][..i + 1] == run[..i + 1];
    SpentForGood(n, start, run[..j], i + 1, Sha256(run[i].plain));
    RunKeepsHashes(n, start, run[..j]);
    SpentFails(n, After(n, start, run[..j]), run[j]);
  }

  // ---------- how many tokens are live ----------

  /** The admin's tokens that expire strictly after an instant. */
  function LiveTokens(tokens: seq<Token>, adminId: Id, instant: int): nat {
    if tokens == [] then 0
    else
      var t := tokens[|tokens| - 1];
      LiveTokens(tokens[..|tokens| - 1], adminId, instant) +
      if t.adminId == adminId && t.expiresAt > instant then 1 else 0
  }

  /** The calls the forgot-password limiter has seen. */
  function ForgotCalls(n: Normaliser, run: seq<Request>): seq<Call> {
    if run == [] then []
    else
      var q := run[|run| - 1];
      ForgotCalls(n, run[..|run| - 1]) + if q.Forgot? then [Call(NormalizeEmail(n, q.email), q.limiterNow)] else []
  }

  ghost predicate OneEmailEach(directory: map<string, Id>) {
    forall e, f :: e in directory && f in directory && directory[e] == directory[f] ==> e == f
  }

  /** The limiter's clock moves forward, and each token is dated at most `gap` after its limiter reading. */
  ghost predicate Timely(n: Normaliser, run: seq<Request>, gap: int) {
    && ClockForward(ForgotCalls(n, run))
    && forall q <- run :: q.Forgot? ==> q.limiterNow <= q.tokenNow <= q.limiterNow + gap
  }

  lemma TimelyPrefix(n: Normaliser, run: seq<Request>, gap: int)
    requires run != [] && Timely(n, run, gap)
    ensures Timely(n, run[..|run| - 1], gap)
  {
    var (calls, before) := (ForgotCalls(n, run), ForgotCalls(n, run[..|run| - 1]));
    forall i, j | 0 <= i < j < |before| ensures before[i].now <= before[j].now {
      assert before[i] == calls[i] && before[j] == calls[j];
    }
  }

  lemma {:induction false} LiveIgnoresUse(ts: seq<Token>, us: seq<Token>, adminId: Id, instant: int)
    requires |ts| == |us| && forall i :: 0 <= i < |ts| ==> us[i] == ts[i].(used := us[i].used)
    ensures LiveTokens(us, adminId, instant) == LiveTokens(ts, adminId, instant)
  {
    if ts != [] {
      LiveIgnoresUse(ts[..|ts| - 1], us[..|us| - 1], adminId, instant);
    }
  }

  /** Every live token answers to an allowed call still inside the limiter's window. */
  ghost predicate Answers(s: Site, calls: seq<Call>, email: string, from: int, gap: int)
    requires email in s.directory
  {
    && s.forgot == RateLimit.After(FORGOT, calls)
    && LiveTokens(s.tokens, s.directory[email], from + gap + TOKEN_TTL) <= |Times(History(FORGOT, calls), email, from)|
  }

  lemma {:induction false} TokensAnswerToCalls(n: Normaliser, start: Site, run: seq<Request>, email: string, from: int,
      gap: int)
    requires start == Opened(start.directory, start.admins) && OneEmailEach(start.directory) && email in start.directory
    requires Timely(n, run, gap)
    ensures After(n, start, run).directory == start.directory
    ensures Answers(After(n, start, run), ForgotCalls(n, run), email, from, gap)
  {
    if run != [] {
      var (before, q) := (run[..|run| - 1], run[|run| - 1]);
      assert q in run;
      TimelyPrefix(n, run, gap);
      TokensAnswerToCalls(n, start, before, email, from, gap);
      if q.Forgot? {
        ForgotAnswers(n, After(n, start, before), q, ForgotCalls(n, before), email, from, gap);
      } else {
        ResetAnswers(n, After(n, start, before), q, ForgotCalls(n, before), email, from, gap);
        assert ForgotCalls(n, before) + [] == ForgotCalls(n, before);
      }
    }
  }

  lemma ResetAnswers(n: Normaliser, s: Site, q: Request, calls: seq<Call>, email: string, from: int, gap: int)
    requires q.Reset? && email in s.directory && Answers(s, calls, email, from, gap)
    ensures Handle(n, s, q).0.directory == s.directory && Answers(Handle(n, s, q).0, calls, email, from, gap)
  {
    ResetTokens(n, s, q);
    LiveIgnoresUse(s.tokens, Handle(n, s, q).0.tokens, s.directory[email], from + gap + TOKEN_TTL);
  }

  /** The limiter's history after one more call. */
  lemma CallAnswered(calls: seq<Call>, c: Call, key: string, from: int)
    requires ClockForward(calls + [c])
    ensures var (l, ok) := Step(FORGOT, RateLimit.After(FORGOT, calls), c);
      && RateLimit.After(FORGOT, calls + [c]) == l
      && |Times(History(FORGOT, calls + [c]), key, from)| ==
         |Times(History(FORGOT, calls), key, from)| + if ok && c.key == key && c.now > from then 1 else 0
  {
    assert (calls + [c])[..|calls + [c]| - 1] == calls;
    AllowIsNaive(FORGOT, calls, c);
    TimesSnoc(History(FORGOT, calls), c, key, from);
  }

  lemma ForgotAnswers(n: Normaliser, s: Site, q: Request, calls: seq<Call>, email: string, from: int, gap: int)
    requires q.Forgot? && OneEmailEach(s.directory) && email in s.directory
    requires q.limiterNow <= q.tokenNow <= q.limiterNow + gap
    requires Answers(s, calls, email, from, gap)
    requires ClockForward(calls + [Call(NormalizeEmail(n, q.email), q.limiterNow)])
    ensures Handle(n, s, q).0.directory == s.directory
    ensures Answers(Handle(n, s, q).0, calls + [Call(NormalizeEmail(n, q.email), q.limiterNow)], email, from, gap)
  {
    var s' := Handle(n, s, q).0;
    CallAnswered(calls, Call(NormalizeEmail(n, q.email), q.limiterNow), email, from);
    ForgotTokens(n, s, q);
    if s'.tokens != s.tokens {
      assert s'.tokens[..|s'.tokens| - 1] == s.tokens;
    }
  }

  lemma {:induction false} TimesCounted(history: seq<Call>, key: string, from: int, to: int)
    requires forall h <- history :: h.now <= to
    ensures |Times(history, key, from)| == CountIn(history, key, from, to)
  {
    if history != [] {
      var init := history[..|history| - 1];
      assert history[|history| - 1] in history && forall h <- init :: h in history;
      TimesCounted(init, key, from, to);
    }
  }

  lemma {:induction false} HistoryIsOfCalls(p: Policy, calls: seq<Call>, c: Call)
    requires c in History(p, calls)
    ensures c in calls
  {
    if c != calls[|calls| - 1] {
      HistoryIsOfCalls(p, calls[..|calls| - 1], c);
    }
  }

  /** A run observed at an instant not before its requests, none of which takes more than `gap` between its readings. */
  ghost predicate ObservedRun(n: Normaliser, start: Site, run: seq<Request>, email: string, now: int, gap: int) {
    && start == Opened(start.directory, start.admins) && OneEmailEach(start.directory) && email in start.directory
    && Timely(n, run, gap) && forall c <- ForgotCalls(n, run) :: c.now <= now
  }

  /**
   At any instant not before the requests, at most five of an email's tokens expire later than
   `gap` from then. When no time passes between a request's two clock readings the gap is zero.
   */
  lemma AtMostFiveLiveTokens(
    n: Normaliser, start: Site, run: seq<Request>, email: string, now: int, gap: int, instant: int)
    requires ObservedRun(n, start, run, email, now, gap) && now + gap <= instant
    ensures LiveTokens(After(n, start, run).tokens, start.directory[email], instant) <= 5
  {
    TokensAnswerToCalls(n, start, run, email, now - HOUR, gap);
    AtMostFiveAnswers(ForgotCalls(n, run), email, now);
    LiveByAnswers(After(n, start, run), ForgotCalls(n, run), email, now - HOUR, gap, instant);
  }

  lemma LiveByAnswers(s: Site, calls: seq<Call>, email: string, from: int, gap: int, instant: int)
    requires email in s.directory && Answers(s, calls, email, from, gap) && from + gap + TOKEN_TTL <= instant
    requires |Times(History(FORGOT, calls), email, from)| <= 5
    ensures LiveTokens(s.tokens, s.directory[email], instant) <= 5
  {
    FewerLiveLater(s.tokens, s.directory[email], from + gap + TOKEN_TTL, instant);
  }

  lemma {:induction false} FewerLiveLater(tokens: seq<Token>, adminId: Id, early: int, late: int)
    requires early <= late
    ensures LiveTokens(tokens, adminId, late) <= LiveTokens(tokens, adminId, early)
  {
    if tokens != [] {
      FewerLiveLater(tokens[..|tokens| - 1], adminId, early, late);
    }
  }

  lemma AtMostFiveAnswers(calls: seq<Call>, email: string, now: int)
    requires ClockForward(calls) && forall c <- calls :: c.now <= now
    ensures |Times(History(FORGOT, calls), email, now - HOUR)| <= 5
  {
    var history := History(FORGOT, calls);
    forall h <- history ensures h.now <= now {
      HistoryIsOfCalls(FORGOT, calls, h);
    }
    TimesCounted(history, email, now - HOUR, now);
    NoWindowExceedsLimit(FORGOT, calls, email, now);
  }

  // ---------- why the gap matters ----------

  /** Distinct names for the tokens of one run. */
  function Label(k: nat): (r: string)
    ensures |r| == k
  {
    seq(k, _ => 'x')
  }

  /** The limiter's and the tokens' state for an email whose hits so far are `ts`. */
  ghost predicate Holds(s: Site, mail: string, ts: seq<int>, tokens: seq<Token>) {
    && s.directory == map[mail := "a"] && "a" in s.admins && s.admins["a"].active
    && At(s.forgot.hits, mail) == ts && s.forgot.sweepCount < 200 && s.tokens == tokens
  }

  lemma Granted(n: Normaliser, mail: string, s: Site, ts: seq<int>, k: nat, at: (int, int))
    requires NormalizeEmail(n, mail) == mail
    requires Holds(s, mail, ts, s.tokens) && s.forgot.sweepCount <= k == |s.tokens| < 10
    requires forall i :: 0 <= i < k ==> s.tokens[i].id == Label(i) && s.tokens[i].hash == Sha256(Label(i))
    requires |Recent(ts, at.0 - HOUR)| < 5
    ensures var s' := Handle(n, s, Forgot(mail, Label(k), Label(k), at.0, at.1, true)).0;
      && Holds(s', mail, Recent(ts, at.0 - HOUR) + [at.0], s.tokens
        + [Token(Label(k), "a", Sha256(Label(k)), at.1 + TOKEN_TTL, false)])
      && s'.forgot.sweepCount <= k + 1
  {
    forall t <- s.tokens ensures t.id != Label(k) && t.hash != Sha256(Label(k)) {
      var i :| 0 <= i < k && s.tokens[i] == t;
      assert |Label(i)| != |Label(k)|;
    }
  }

  /** When the i-th request reads the limiter's clock, and when the token's: the first is a nanosecond slow. */
  function Readings(i: nat): (int, int) {
    if i == 0 then (0, 1) else if i < 5 then (1, 1) else (HOUR, HOUR)
  }

  function SlowRequest(mail: string, i: nat): Request {
    Forgot(mail, Label(i), Label(i), Readings(i).0, Readings(i).1, true)
  }

  function Slow(mail: string, k: nat): seq<Request> {
    if k == 0 then [] else Slow(mail, k - 1) + [SlowRequest(mail, k - 1)]
  }

  function Issued(k: nat): seq<Token> {
    if k == 0 then []
    else Issued(k - 1) + [Token(Label(k - 1), "a", Sha256(Label(k - 1)), Readings(k - 1).1 + TOKEN_TTL, false)]
  }

  function Hits(k: nat): seq<int> {
    if k == 0 then [] else Hits(k - 1) + [Readings(k - 1).0]
  }

  lemma {:induction false} IssuedAre(mail: string, k: nat)
    requires k <= 6
    ensures |Issued(k)| == |Hits(k)| == |Slow(mail, k)| == k
    ensures forall i :: 0 <= i < k ==> Issued(k)[i].id == Label(i) && Issued(k)[i].hash == Sha256(Label(i))
    ensures forall i :: 0 <= i < k ==> Hits(k)[i] == Readings(i).0
  {
    if k > 0 {
      IssuedAre(mail, k - 1);
      assert Issued(k)[..k - 1] == Issued(k - 1);
    }
  }

  lemma {:induction false} IssuedLive(k: nat)
    requires k <= 6
    ensures LiveTokens(Issued(k), "a", HOUR) == k
  {
    if k > 0 {
      IssuedLive(k - 1);
      assert Issued(k)[..|Issued(k)| - 1] == Issued(k - 1);
    }
  }

  lemma {:induction false} RecentAll(ts: seq<int>, cutoff: int)
    requires forall i :: 0 <= i < |ts| ==> ts[i] > cutoff
    ensures Recent(ts, cutoff) == ts
  {
    if ts != [] {
      RecentAll(ts[..|ts| - 1], cutoff);
    }
  }

  lemma {:induction false} RecentDropsFirst(ts: seq<int>, cutoff: int)
    requires ts != [] && ts[0] <= cutoff
    ensures |Recent(ts, cutoff)| < |ts|
  {
    if |ts| > 1 {
      RecentDropsFirst(ts[..|ts| - 1], cutoff);
    } else {
      assert ts[..0] == [];
    }
  }

  lemma SlowStep(n: Normaliser, mail: string, s: Site, k: nat)
    requires NormalizeEmail(n, mail) == mail && k <= 5
    requires Holds(s, mail, Hits(k), Issued(k)) && s.forgot.sweepCount <= k
    ensures var s' := Handle(n, s, SlowRequest(mail, k)).0;
      s'.tokens == Issued(k + 1)
          && (k < 5 ==> Holds(s', mail, Hits(k + 1), Issued(k + 1)) && s'.forgot.sweepCount <= k + 1)
  {
    RecentHits(mail, k);
    IssuedAre(mail, k);
    Granted(n, mail, s, Hits(k), k, Readings(k));
  }

  lemma RecentHits(mail: string, k: nat)
    requires k <= 5
    ensures var ts := Recent(Hits(k), Readings(k).0 - HOUR); |ts| < 5 && (k < 5 ==> ts == Hits(k))
  {
    IssuedAre(mail, k);
    if k < 5 {
      RecentAll(Hits(k), Readings(k).0 - HOUR);
    } else {
      RecentDropsFirst(Hits(k), 0);
    }
  }

  /** The state after `k` of the requests. */
  ghost predicate SlowAt(s: Site, mail: string, k: nat) {
    s.tokens == Issued(k) && (k <= 5 ==> Holds(s, mail, Hits(k), Issued(k)) && s.forgot.sweepCount <= k)
  }

  lemma SlowNext(n: Normaliser, mail: string, s: Site, k: nat) returns (s': Site)
    requires NormalizeEmail(n, mail) == mail && 0 < k <= 6 && SlowAt(s, mail, k - 1)
    ensures s' == Handle(n, s, SlowRequest(mail, k - 1)).0 && SlowAt(s', mail, k)
  {
    SlowStep(n, mail, s, k - 1);
    s' := Handle(n, s, SlowRequest(mail, k - 1)).0;
  }

  lemma {:induction false} SlowRun(n: Normaliser, mail: string, start: Site, k: nat) returns (s: Site)
    requires NormalizeEmail(n, mail) == mail && k <= 6 && start == Opened(map[mail := "a"], map["a" := Admin(true, "")])
    ensures s == After(n, start, Slow(mail, k)) && SlowAt(s, mail, k)
  {
    if k == 0 {
      s := start;
    } else {
      var before := SlowRun(n, mail, start, k - 1);
      s := SlowNext(n, mail, before, k);
      AfterSnoc(n, start, Slow(mail, k - 1), SlowRequest(mail, k - 1));
    }
  }

  lemma AfterSnoc(n: Normaliser, start: Site, run: seq<Request>, q: Request)
    ensures After(n, start, run + [q]) == Handle(n, After(n, start, run), q).0
  {
    assert (run + [q])[..|run + [q]| - 1] == run;
  }

  lemma ForgotCallsSnoc(n: Normaliser, run: seq<Request>, q: Request)
    requires q.Forgot?
    ensures ForgotCalls(n, run + [q]) == ForgotCalls(n, run) + [Call(NormalizeEmail(n, q.email), q.limiterNow)]
  {
    assert (run + [q])[..|run + [q]| - 1] == run;
  }

  lemma {:induction false} SlowCalls(n: Normaliser, mail: string, k: nat)
    requires NormalizeEmail(n, mail) == mail
    ensures |ForgotCalls(n, Slow(mail, k))| == k
    ensures forall i :: 0 <= i < k ==> ForgotCalls(n, Slow(mail, k))[i] == Call(mail, Readings(i).0)
  {
    if k > 0 {
      SlowCalls(n, mail, k - 1);
      ForgotCallsSnoc(n, Slow(mail, k - 1), SlowRequest(mail, k - 1));
    }
  }

  lemma {:induction false} SlowRequests(mail: string, k: nat)
    ensures forall q <- Slow(mail, k) :: q.Forgot? && q.limiterNow <= q.tokenNow <= q.limiterNow + 1
  {
    if k > 0 {
      SlowRequests(mail, k - 1);
    }
  }

  lemma SlowIsTimely(n: Normaliser, mail: string, k: nat, gap: int)
    requires NormalizeEmail(n, mail) == mail && gap >= 1
    ensures Timely(n, Slow(mail, k), gap) && forall c <- ForgotCalls(n, Slow(mail, k)) :: c.now <= HOUR
  {
    SlowCalls(n, mail, k);
    SlowRequests(mail, k);
  }

  /** If a request may be slow between its two readings, six tokens of one email can be live at once. */
  lemma SixLiveTokens(n: Normaliser, mail: string, start: Site)
    requires NormalizeEmail(n, mail) == mail && start == Opened(map[mail := "a"], map["a" := Admin(true, "")])
    ensures LiveTokens(After(n, start, Slow(mail, 6)).tokens, "a", HOUR) == 6
  {
    var s := SlowRun(n, mail, start, 6);
    IssuedLive(6);
  }

  /** The bound on live tokens, for every run whose requests take at most `gap` between their readings. */
  ghost predicate FiveAtMost(n: Normaliser, gap: int) {
    forall start, run, email, now :: ObservedRun(n, start, run, email, now, gap) ==>
      LiveTokens(After(n, start, run).tokens, start.directory[email], now) <= 5
  }

  lemma FiveWithoutGap(n: Normaliser, gap: int)
    requires gap <= 0
    ensures FiveAtMost(n, gap)
  {
    forall start, run, email, now | ObservedRun(n, start, run, email, now, gap)
      ensures LiveTokens(After(n, start, run).tokens, start.directory[email], now) <= 5
    {
      AtMostFiveLiveTokens(n, start, run, email, now, gap, now);
    }
  }

  lemma SixWithGap(n: Normaliser, mail: string, gap: int)
    requires NormalizeEmail(n, mail) == mail && gap >= 1
    ensures !FiveAtMost(n, gap)
  {
    var start := Opened(map[mail := "a"], map["a" := Admin(true, "")]);
    SixLiveTokens(n, mail, start);
    SlowIsTimely(n, mail, 6, gap);
    assert ObservedRun(n, start, Slow(mail, 6), mail, HOUR, gap);
  }

  /** Never more than five tokens of one email are live, exactly when requests take no time between their readings. */
  lemma FiveIffNoGap(n: Normaliser, mail: string, gap: int)
    requires NormalizeEmail(n, mail) == mail
    ensures FiveAtMost(n, gap) <==> gap <= 0
  {
    if gap <= 0 {
      FiveWithoutGap(n, gap);
    } else {
      SixWithGap(n, mail, gap);
    }
  }
}
