/**
 When a password reset works, over whole runs and in the requests' own fields: the token was
 issued less than an hour ago, to an admin who has not reset the password since.
 */
module PasswordRuns {
  import opened Wrappers
  import opened Clock
  import opened Receipts
  import RateLimit
  import opened PasswordReset

  // ---------- one request ----------

  /** The request is let through, five an hour for each email, and its fresh token goes to this active admin. */
  predicate Issues(n: Normaliser, s: Site, q: Request, adminId: Id)
    requires q.Forgot?
  {
    var email := NormalizeEmail(n, q.email);
    && RateLimit.Step(RateLimit.Policy(5, 3600 * SECOND), s.forgot, RateLimit.Call(email, q.limiterNow)).1
    && email in s.directory && s.directory[email] == adminId && adminId in s.admins && s.admins[adminId].active
    && forall t <- s.tokens :: t.hash != Sha256(q.plain) && t.id != q.id
  }

  /** A request for a token stores one exactly when it issues one; it is good for an hour. */
  lemma IssueExactly(n: Normaliser, s: Site, q: Request, adminId: Id)
    requires q.Forgot?
    ensures var s' := Handle(n, s, q).0;
      && s'.admins == s.admins && s'.directory == s.directory
      && (Issues(n, s, q, adminId) ==>
          s'.tokens == s.tokens + [Token(q.id, adminId, Sha256(q.plain), q.tokenNow + 3600 * SECOND, false)])
      && (s'.tokens != s.tokens ==>
          var email := NormalizeEmail(n, q.email); email in s.directory && Issues(n, s, q, s.directory[email]))
  {}

  /** An unused token with the hash of what was sent, not past its hour. */
  predicate Redeems(t: Token, q: Request)
    requires q.Reset?
  {
    t.hash == Sha256(q.plain) && !t.used && q.now <= t.expiresAt
  }

  /** The admin has the new password, no unused token, and nobody else is touched. */
  ghost predicate PasswordSet(s: Site, s': Site, adminId: Id, passwordHash: string) {
    && adminId in s.admins && s'.admins == s.admins[adminId := Admin(s.admins[adminId].active, passwordHash)]
    && |s'.tokens| == |s.tokens|
    && forall i :: 0 <= i < |s.tokens| ==>
      s'.tokens[i] == if s.tokens[i].adminId == adminId then s.tokens[i].(used := true) else s.tokens[i]
  }

  /**
   A reset is refused, in this order, by the limiter of ten an hour for each address, for a
   password of less than eight characters, and without a redeemable token. Otherwise its admin,
   if there is one, has the new password, and all the admin's tokens are used up.
   */
  lemma ResetExactly(n: Normaliser, s: Site, q: Request)
    requires q.Reset? && UniqueHashes(s.tokens)
    ensures var (s', failure) := Handle(n, s, q);
      if !RateLimit.Step(RateLimit.Policy(10, 3600 * SECOND), s.reset, RateLimit.Call(q.ip, q.limiterNow)).1 then
        failure == Some(TooManyRequests)
      else if |q.password| < 8 then failure == Some(PasswordTooShort)
      else if !exists t <- s.tokens :: Redeems(t, q) then failure == Some(InvalidToken)
      else
        exists t <- s.tokens :: Redeems(t, q) &&
          if t.adminId in s.admins then failure == None && PasswordSet(s, s', t.adminId, q.passwordHash)
          else failure == Some(AdminNotFound)
  {
    var found := FindByHash(s.tokens, Sha256(q.plain));
    forall t | t in s.tokens && t.hash == Sha256(q.plain) ensures found == Some(t) {
      SameToken(s.tokens, found.value, t);
    }
    if found.Some? && found.value.adminId in s.admins {
      ConsumedByAdmin(s.tokens, found.value);
    }
  }

  lemma SameToken(tokens: seq<Token>, t: Token, u: Token)
    requires UniqueHashes(tokens) && t in tokens && u in tokens && (t.hash == u.hash || t.id == u.id)
    ensures t == u
  {
    var i, j :| 0 <= i < |tokens| && 0 <= j < |tokens| && tokens[i] == t && tokens[j] == u;
    assert i == j;
  }

  lemma ConsumedByAdmin(tokens: seq<Token>, t: Token)
    requires UniqueHashes(tokens) && t in tokens
    ensures forall i :: 0 <= i < |tokens| ==>
      Consumed(tokens, t.id, t.adminId)[i] ==
        if tokens[i].adminId == t.adminId then tokens[i].(used := true) else tokens[i]
  {
    forall i | 0 <= i < |tokens| && tokens[i].id == t.id ensures tokens[i] == t {
      SameToken(tokens, t, tokens[i]);
    }
  }

  // ---------- runs ----------

  /** The request at `k` issued the token to the admin. */
  ghost predicate IssuedAt(n: Normaliser, start: Site, run: seq<Request>, k: int, adminId: Id, plain: string) {
    && 0 <= k < |run| && run[k].Forgot? && run[k].plain == plain
    && Issues(n, After(n, start, run[..k]), run[k], adminId)
  }

  ghost predicate IssuedTo(n: Normaliser, start: Site, run: seq<Request>, adminId: Id, plain: string) {
    exists k :: IssuedAt(n, start, run, k, adminId, plain)
  }

  /** After `run` the request resets the password of the admin its token was issued to. */
  ghost predicate Resets(n: Normaliser, start: Site, run: seq<Request>, q: Request, adminId: Id) {
    q.Reset? && Handle(n, After(n, start, run), q).1 == None && IssuedTo(n, start, run, adminId, q.plain)
  }

  /** A request later than the one at `k` has reset the admin's password. */
  ghost predicate ResetSince(n: Normaliser, start: Site, run: seq<Request>, k: nat, adminId: Id) {
    |run| > k + 1 &&
    var (before, q) := (run[..|run| - 1], run[|run| - 1]);
    ResetSince(n, start, before, k, adminId) || Resets(n, start, before, q, adminId)
  }

  /** The row of a token issued at `k`, as it stands at the end of the run. */
  ghost function IssuedToken(n: Normaliser, start: Site, run: seq<Request>, k: nat, adminId: Id): Token
    requires k < |run| && run[k].Forgot?
  {
    var q := run[k];
    Token(q.id, adminId, Sha256(q.plain), q.tokenNow + 3600 * SECOND, ResetSince(n, start, run, k, adminId))
  }

  ghost predicate IsIssued(n: Normaliser, start: Site, run: seq<Request>, k: int, t: Token) {
    && 0 <= k < |run| && run[k].Forgot? && IssuedAt(n, start, run, k, t.adminId, run[k].plain)
    && t == IssuedToken(n, start, run, k, t.adminId)
  }

  /** The token table is made of the tokens issued, used up exactly when their admin has reset since. */
  ghost predicate TableIsIssued(n: Normaliser, start: Site, run: seq<Request>, tokens: seq<Token>) {
    && (forall t <- tokens :: exists k :: IsIssued(n, start, run, k, t))
    && (forall k, adminId :: 0 <= k < |run| && IssuedAt(n, start, run, k, adminId, run[k].plain) ==>
        IssuedToken(n, start, run, k, adminId) in tokens)
  }

  lemma IssuedAtSnoc(
    n: Normaliser, start: Site, run: seq<Request>, q: Request, k: int, adminId: Id, plain: string)
    ensures IssuedAt(n, start, run + [q], k, adminId, plain) <==>
      || IssuedAt(n, start, run, k, adminId, plain)
      || (k == |run| && q.Forgot? && q.plain == plain && Issues(n, After(n, start, run), q, adminId))
  {
    if 0 <= k <= |run| {
      assert (run + [q])[..k] == run[..k];
      assert run[..|run|] == run;
    }
  }

  lemma ResetSinceSnoc(n: Normaliser, start: Site, run: seq<Request>, q: Request, k: nat, adminId: Id)
    ensures ResetSince(n, start, run + [q], k, adminId) <==>
      k < |run| && (ResetSince(n, start, run, k, adminId) || Resets(n, start, run, q, adminId))
  {
    assert (run + [q])[..|run|] == run;
  }

  // ---------- each request keeps the table traced ----------

  lemma KeptIssued(n: Normaliser, start: Site, run: seq<Request>, q: Request, k: int, t: Token)
    requires q.Forgot? && IsIssued(n, start, run, k, t)
    ensures IsIssued(n, start, run + [q], k, t)
  {
    IssuedAtSnoc(n, start, run, q, k, t.adminId, run[k].plain);
    ResetSinceSnoc(n, start, run, q, k, t.adminId);
  }

  lemma NewIssued(n: Normaliser, start: Site, run: seq<Request>, q: Request, t: Token)
    requires q.Forgot? && t in After(n, start, run + [q]).tokens && t !in After(n, start, run).tokens
    ensures IsIssued(n, start, run + [q], |run|, t)
  {
    var s := After(n, start, run);
    AfterSnoc(n, start, run, q);
    IssueExactly(n, s, q, "");
    var adminId := s.directory[NormalizeEmail(n, q.email)];
    IssueExactly(n, s, q, adminId);
    IssuedAtSnoc(n, start, run, q, |run|, adminId, q.plain);
  }

  lemma SameIssuedToken(n: Normaliser, start: Site, run: seq<Request>, q: Request, k: nat, adminId: Id)
    requires q.Forgot? && k < |run| && run[k].Forgot?
    ensures IssuedToken(n, start, run + [q], k, adminId) == IssuedToken(n, start, run, k, adminId)
  {
    ResetSinceSnoc(n, start, run, q, k, adminId);
  }

  lemma TokensKept(n: Normaliser, start: Site, run: seq<Request>, q: Request)
    requires q.Forgot?
    ensures After(n, start, run).tokens <= After(n, start, run + [q]).tokens
  {
    AfterSnoc(n, start, run, q);
    ForgotTokens(n, After(n, start, run), q);
  }

  lemma OldStored(n: Normaliser, start: Site, run: seq<Request>, q: Request, k: nat, adminId: Id)
    requires q.Forgot? && k < |run| && run[k].Forgot?
    requires IssuedToken(n, start, run, k, adminId) in After(n, start, run).tokens
    ensures IssuedToken(n, start, run + [q], k, adminId) in After(n, start, run + [q]).tokens
  {
    SameIssuedToken(n, start, run, q, k, adminId);
    TokensKept(n, start, run, q);
  }

  lemma NewStored(n: Normaliser, start: Site, run: seq<Request>, q: Request, adminId: Id)
    requires q.Forgot? && Issues(n, After(n, start, run), q, adminId)
    ensures IssuedToken(n, start, run + [q], |run|, adminId) in After(n, start, run + [q]).tokens
  {
    AfterSnoc(n, start, run, q);
    ResetSinceSnoc(n, start, run, q, |run|, adminId);
    IssueExactly(n, After(n, start, run), q, adminId);
  }

  lemma ForgotKeepsIssued(n: Normaliser, start: Site, run: seq<Request>, q: Request)
    requires q.Forgot? && TableIsIssued(n, start, run, After(n, start, run).tokens)
    ensures TableIsIssued(n, start, run + [q], After(n, start, run + [q]).tokens)
  {
    var (before, after, all) := (After(n, start, run).tokens, After(n, start, run + [q]).tokens, run + [q]);
    forall t <- after ensures exists k :: IsIssued(n, start, all, k, t) {
      if t in before {
        var k :| IsIssued(n, start, run, k, t);
        KeptIssued(n, start, run, q, k, t);
      } else {
        NewIssued(n, start, run, q, t);
      }
    }
    forall k, adminId | 0 <= k < |all| && IssuedAt(n, start, all, k, adminId, all[k].plain)
      ensures IssuedToken(n, start, all, k, adminId) in after
    {
      IssuedAtSnoc(n, start, run, q, k, adminId, all[k].plain);
      if k < |run| {
        OldStored(n, start, run, q, k, adminId);
      } else {
        NewStored(n, start, run, q, adminId);
      }
    }
  }

  /** Whoever a redeemed token belongs to is who it was issued to. */
  lemma ResetsItsAdmin(n: Normaliser, start: Site, run: seq<Request>, q: Request, t: Token, adminId: Id)
    requires TableIsIssued(n, start, run, After(n, start, run).tokens) && UniqueHashes(After(n, start, run).tokens)
    requires q.Reset? && t in After(n, start, run).tokens && t.hash == Sha256(q.plain)
    ensures IssuedTo(n, start, run, adminId, q.plain) <==> adminId == t.adminId
  {
    var tokens := After(n, start, run).tokens;
    if IssuedTo(n, start, run, adminId, q.plain) {
      var k :| IssuedAt(n, start, run, k, adminId, q.plain);
      SameToken(tokens, t, IssuedToken(n, start, run, k, adminId));
    }
    var k :| IsIssued(n, start, run, k, t);
    assert IssuedAt(n, start, run, k, t.adminId, q.plain);
  }

  /** The row of a token after one more reset. */
  ghost function AfterReset(n: Normaliser, start: Site, run: seq<Request>, q: Request, t: Token): Token {
    t.(used := t.used || Resets(n, start, run, q, t.adminId))
  }

  lemma ResetMarks(n: Normaliser, start: Site, run: seq<Request>, q: Request)
    requires TableIsIssued(n, start, run, After(n, start, run).tokens) && UniqueHashes(After(n, start, run).tokens)
    requires q.Reset?
    ensures var (ts, us) := (After(n, start, run).tokens, After(n, start, run + [q]).tokens);
      |us| == |ts| && forall i :: 0 <= i < |ts| ==> us[i] == AfterReset(n, start, run, q, ts[i])
  {
    var s := After(n, start, run);
    AfterSnoc(n, start, run, q);
    if Handle(n, s, q).1 != None {
      FailedResetChangesNothing(n, s, q);
    } else {
      var t := SuccessfulReset(n, s, q);
      forall i | 0 <= i < |s.tokens|
        ensures Resets(n, start, run, q, s.tokens[i].adminId) <==> s.tokens[i].adminId == t.adminId
      {
        ResetsItsAdmin(n, start, run, q, t, s.tokens[i].adminId);
      }
    }
  }

  lemma SuccessfulReset(n: Normaliser, s: Site, q: Request) returns (t: Token)
    requires q.Reset? && UniqueHashes(s.tokens) && Handle(n, s, q).1 == None
    ensures t in s.tokens && Redeems(t, q) && PasswordSet(s, Handle(n, s, q).0, t.adminId, q.passwordHash)
  {
    ResetExactly(n, s, q);
    t :| t in s.tokens && Redeems(t, q) && PasswordSet(s, Handle(n, s, q).0, t.adminId, q.passwordHash);
  }

  lemma ResetIssued(n: Normaliser, start: Site, run: seq<Request>, q: Request, k: int, t: Token)
    requires q.Reset? && IsIssued(n, start, run, k, t)
    ensures IsIssued(n, start, run + [q], k, AfterReset(n, start, run, q, t))
  {
    IssuedAtSnoc(n, start, run, q, k, t.adminId, run[k].plain);
    ResetSinceSnoc(n, start, run, q, k, t.adminId);
  }

  lemma ResetKeepsIssued(n: Normaliser, start: Site, run: seq<Request>, q: Request)
    requires TableIsIssued(n, start, run, After(n, start, run).tokens) && UniqueHashes(After(n, start, run).tokens)
    requires q.Reset?
    ensures TableIsIssued(n, start, run + [q], After(n, start, run + [q]).tokens)
  {
    var (ts, us, all) := (After(n, start, run).tokens, After(n, start, run + [q]).tokens, run + [q]);
    ResetMarks(n, start, run, q);
    forall u <- us ensures exists k :: IsIssued(n, start, all, k, u) {
      var i :| 0 <= i < |us| && us[i] == u;
      assert ts[i] in ts;
      var k :| IsIssued(n, start, run, k, ts[i]);
      ResetIssued(n, start, run, q, k, ts[i]);
    }
    forall k, adminId | 0 <= k < |all| && IssuedAt(n, start, all, k, adminId, all[k].plain)
      ensures IssuedToken(n, start, all, k, adminId) in us
    {
      IssuedAtSnoc(n, start, run, q, k, adminId, all[k].plain);
      var t := IssuedToken(n, start, run, k, adminId);
      var i :| 0 <= i < |ts| && ts[i] == t;
      ResetIssued(n, start, run, q, k, t);
      assert us[i] == IssuedToken(n, start, all, k, adminId);
    }
  }

  lemma {:induction false} RunIsIssued(n: Normaliser, start: Site, run: seq<Request>)
    requires start.tokens == []
    ensures TableIsIssued(n, start, run, After(n, start, run).tokens) && UniqueHashes(After(n, start, run).tokens)
  {
    RunKeepsHashes(n, start, run);
    if run != [] {
      var (before, q) := (run[..|run| - 1], run[|run| - 1]);
      RunIsIssued(n, start, before);
      if q.Forgot? {
        ForgotKeepsIssued(n, start, before, q);
      } else {
        ResetKeepsIssued(n, start, before, q);
      }
      assert run == before + [q];
    }
  }

  lemma {:induction false} AdminsStay(n: Normaliser, start: Site, run: seq<Request>)
    ensures After(n, start, run).admins.Keys == start.admins.Keys
  {
    if run != [] {
      AdminsStay(n, start, run[..|run| - 1]);
    }
  }

  /** The token was issued to the admin at `k`, for an hour, and the admin has not reset the password since. */
  ghost predicate WorksFor(n: Normaliser, start: Site, run: seq<Request>, q: Request, k: int, adminId: Id)
    requires q.Reset?
  {
    && IssuedAt(n, start, run, k, adminId, q.plain)
    && q.now <= run[k].tokenNow + 3600 * SECOND && !ResetSince(n, start, run, k, adminId)
  }

  /**
   In any run a reset works exactly when the limiter of ten an hour lets it through, the password
   has eight characters, and its token was issued to an active admin not more than an hour
   before, who has not reset the password since; it then sets that admin's password.
   */
  lemma ResetWorksIff(n: Normaliser, start: Site, run: seq<Request>, q: Request)
    requires start.tokens == [] && q.Reset?
    ensures var s := After(n, start, run);
      var ((s', failure), allowed) := (Handle(n, s, q),
        RateLimit.Step(RateLimit.Policy(10, 3600 * SECOND), s.reset, RateLimit.Call(q.ip, q.limiterNow)).1);
      && (failure == None <==>
          allowed && |q.password| >= 8 && exists k, adminId :: WorksFor(n, start, run, q, k, adminId))
      && (failure == None ==> exists k, adminId ::
          WorksFor(n, start, run, q, k, adminId) && PasswordSet(s, s', adminId, q.passwordHash))
  {
    var s := After(n, start, run);
    RunIsIssued(n, start, run);
    AdminsStay(n, start, run);
    ResetExactly(n, s, q);
    if exists k, adminId :: WorksFor(n, start, run, q, k, adminId) {
      var k, adminId :| WorksFor(n, start, run, q, k, adminId);
      assert Redeems(IssuedToken(n, start, run, k, adminId), q);
    }
    forall t | t in s.tokens && Redeems(t, q)
      ensures t.adminId in s.admins && exists k :: WorksFor(n, start, run, q, k, t.adminId)
    {
      var k := RedeemedWorks(n, start, run, q, t);
    }
  }

  lemma RedeemedWorks(n: Normaliser, start: Site, run: seq<Request>, q: Request, t: Token) returns (k: int)
    requires q.Reset? && TableIsIssued(n, start, run, After(n, start, run).tokens)
    requires t in After(n, start, run).tokens && Redeems(t, q)
    ensures WorksFor(n, start, run, q, k, t.adminId) && t.adminId in After(n, start, run).admins
  {
    k :| IsIssued(n, start, run, k, t);
    AdminsStay(n, start, run[..k]);
    AdminsStay(n, start, run);
  }
}
