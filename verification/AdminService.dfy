/** The admin service's password reset, over two limiter objects and the admin and token tables. */
module AdminService {
  import opened Wrappers
  import opened Clock
  import opened Receipts
  import opened RateLimit
  import opened PasswordReset

  class Service {
    const forgotLimit: MemoryRateLimiter
    const resetLimit: MemoryRateLimiter
    const directory: map<string, Id>
    var admins: map<Id, Admin>
    var tokens: seq<Token>

    ghost predicate Valid()
      reads this, forgotLimit, resetLimit, forgotLimit.owner.Keys, resetLimit.owner.Keys
    {
      && forgotLimit != resetLimit && forgotLimit.owner.Keys !! resetLimit.owner.Keys
      && forgotLimit.Valid() && Policy(forgotLimit.limit, forgotLimit.window) == FORGOT
      && resetLimit.Valid() && Policy(resetLimit.limit, resetLimit.window) == RESET
    }

    ghost function Model(): Site
      reads this, forgotLimit, resetLimit
    {
      Site(directory, admins, tokens, forgotLimit.Model(), resetLimit.Model())
    }

    constructor (directory: map<string, Id>, admins: map<Id, Admin>)
      ensures Valid() && Model() == Opened(directory, admins)
      ensures fresh(forgotLimit) && fresh(resetLimit)
    {
      this.directory, this.admins, tokens := directory, admins, [];
      var f := new MemoryRateLimiter(5, HOUR);
      var r := new MemoryRateLimiter(10, HOUR);
      forgotLimit, resetLimit := f, r;
    }

    method ForgotPassword(n: Normaliser, email: string, plain: string, id: Id, limiterNow: int, tokenNow: int,
        mailed: bool)
      returns (failure: Option<Error>)
      requires Valid()
      modifies this, forgotLimit, forgotLimit.owner.Keys
      ensures Valid()
      ensures (Model(), failure) == Handle(n, old(Model()), Forgot(email, plain, id, limiterNow, tokenNow, mailed))
    {
      var address := NormalizeEmail(n, email);
      var ok := forgotLimit.Allow(address, limiterNow);
      if !ok {
        return Some(TooManyRequests);
      }
      failure := IssueToken(address, plain, id, tokenNow, mailed,
          Forgot(email, plain, id, limiterNow, tokenNow, mailed));
    }

    /** A token for the active admin of the address, if there is one. */
    method IssueToken(address: string, plain: string, id: Id, tokenNow: int, mailed: bool, ghost q: Request)
      returns (failure: Option<Error>)
      requires q.Forgot? && (q.plain, q.id, q.tokenNow, q.mailed) == (plain, id, tokenNow, mailed)
      modifies this`tokens
      ensures (Model(), failure) == Issue(old(Model()), address, q)
    {
      if address !in directory || directory[address] !in admins || !admins[directory[address]].active {
        return None;
      }
      var hash := Sha256(plain);
      if exists u <- tokens :: u.hash == hash || u.id == id {
        return Some(TokenClash);
      }
      tokens := tokens + [Token(id, directory[address], hash, tokenNow + TOKEN_TTL, false)];
      failure := if mailed then None else Some(MailFailed);
    }

    method ResetPassword(n: Normaliser, ip: string, plain: string, password: string, passwordHash: string,
        limiterNow: int, now: int)
      returns (failure: Option<Error>)
      requires Valid()
      modifies this, resetLimit, resetLimit.owner.Keys
      ensures Valid()
      ensures (Model(), failure) == Handle(n, old(Model()), Reset(ip, plain, password, passwordHash, limiterNow, now))
    {
      var ok := resetLimit.Allow(ip, limiterNow);
      if !ok {
        return Some(TooManyRequests);
      }
      if |password| < MIN_PASSWORD {
        return Some(PasswordTooShort);
      }
      var row := FindByHash(tokens, Sha256(plain));
      if row.None? || row.value.used || now > row.value.expiresAt {
        return Some(InvalidToken);
      }
      failure := ConsumePasswordReset(row.value, passwordHash);
    }

    /** One statement: the rows affected. */
    method UpdatePassword(adminId: Id, passwordHash: string) returns (rows: nat)
      modifies this`admins
      ensures rows == if adminId in old(admins) then 1 else 0
      ensures admins == if rows == 0 then old(admins)
        else old(admins)[adminId := old(admins)[adminId].(passwordHash := passwordHash)]
    {
      if adminId !in admins {
        return 0;
      }
      admins := admins[adminId := admins[adminId].(passwordHash := passwordHash)];
      rows := 1;
    }

    method MarkUsed(tokenId: Id)
      modifies this`tokens
      ensures |tokens| == |old(tokens)|
      ensures forall i :: 0 <= i < |tokens| ==>
        tokens[i] == old(tokens)[i].(used := old(tokens)[i].used || old(tokens)[i].id == tokenId)
    {
      var rows := tokens;
      for i := 0 to |rows|
        invariant |tokens| == |rows| && forall k :: i <= k < |rows| ==> tokens[k] == rows[k]
        invariant forall k :: 0 <= k < i ==> tokens[k] == rows[k].(used := rows[k].used || rows[k].id == tokenId)
      {
        if rows[i].id == tokenId {
          tokens := tokens[i := rows[i].(used := true)];
        }
      }
    }

    method InvalidateOthers(adminId: Id, tokenId: Id)
      modifies this`tokens
      ensures |tokens| == |old(tokens)|
      ensures forall i :: 0 <= i < |tokens| ==>
        tokens[i] == old(tokens)[i].(used := old(tokens)[i].used
            || (old(tokens)[i].adminId == adminId && old(tokens)[i].id != tokenId))
    {
      var rows := tokens;
      for i := 0 to |rows|
        invariant |tokens| == |rows| && forall k :: i <= k < |rows| ==> tokens[k] == rows[k]
        invariant forall k :: 0 <= k < i ==>
          tokens[k] == rows[k].(used := rows[k].used || (rows[k].adminId == adminId && rows[k].id != tokenId))
      {
        if rows[i].adminId == adminId && rows[i].id != tokenId && !rows[i].used {
          tokens := tokens[i := rows[i].(used := true)];
        }
      }
    }

    /** Three statements in one transaction; without the admin's row it is rolled back. */
    method ConsumePasswordReset(t: Token, passwordHash: string) returns (failure: Option<Error>)
      modifies this`admins, this`tokens
      ensures (Model(), failure) == Consume(old(Model()), t, passwordHash)
    {
      var savedAdmins, savedTokens := admins, tokens;
      var rows := UpdatePassword(t.adminId, passwordHash);
      if rows == 0 {
        admins, tokens := savedAdmins, savedTokens;
        return Some(AdminNotFound);
      }
      MarkUsed(t.id);
      InvalidateOthers(t.adminId, t.id);
      assert tokens == Consumed(savedTokens, t.id, t.adminId);
      failure := None;
    }
  }
}
