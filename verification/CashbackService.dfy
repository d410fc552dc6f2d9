/**
 The cashback service: what each request turns into before it reaches the repository. Lookups
 in the code cache, identifiers and clock readings are parameters.
 */
module CashbackService {
  import opened Wrappers
  import opened Clock
  import opened Receipts
  import opened Ledger
  import opened LedgerRepository
  import opened Accrual

  const CORRECTION_WINDOW := 2 * HOUR
  const REDEMPTION_EXPIRY := 1 * HOUR

  function FindTransaction(log: seq<Transaction>, id: Id): (r: Option<Transaction>)
    ensures r.Some? ==> r.value in log && r.value.id == id
    ensures r.None? <==> !HasId(log, id)
  {
    if log == [] then None
    else if log[|log| - 1].id == id then Some(log[|log| - 1])
    else FindTransaction(log[..|log| - 1], id)
  }

  function FindByCode(rds: seq<Redemption>, code: string): (r: Option<Redemption>)
    ensures r.Some? ==> r.value in rds && r.value.code == code
    ensures r.None? <==> forall rd <- rds :: rd.code != code
  {
    if rds == [] then None
    else if rds[|rds| - 1].code == code then Some(rds[|rds| - 1])
    else FindByCode(rds[..|rds| - 1], code)
  }

  /** The correction of an earn: the recalculated cashback less what was first credited. */
  function Delta(p: Program, original: Transaction, newPurchase: real): int {
    CashbackCents(newPurchase, p.rate) - original.amount
  }

  function Correction(p: Program, t: Transaction, newPurchase: real, id: Id): Op {
    AdjustTx(id, t.account, Delta(p, t, newPurchase), t.id)
  }

  /** The earn of a purchase the program credits. */
  function CashbackOp(p: Program, a: Account, purchase: real, fp: Fingerprint, id: Id, serviceNow: int): Op
    requires Credit(p, purchase).Ok?
  {
    AddTx(id, a, Credit(p, purchase).value, CapOf(p), fp, serviceNow + CORRECTION_WINDOW)
  }

  /**
   Both corrections of an earn are measured against the earn itself, so they add up: the second
   leaves what it would have left alone exactly when the first moved nothing, or the floor
   stops both.
   */
  lemma CorrectionsAddUp(
    p: Program, schema: Schema, s: Tables, t: Transaction, purchase: real, purchase': real, id: Id, id': Id, now: int,
        now': int)
    requires Balance(s, t.account) >= 0
    requires var (c, c') := (Correction(p, t, purchase, id), Correction(p, t, purchase', id'));
      Step(schema, s, c, now).Ok? && Step(schema, After(schema, s, c, now), c', now').Ok?
    ensures var (c, c') := (Correction(p, t, purchase, id), Correction(p, t, purchase', id'));
      var (b, once) := (Balance(s, t.account), Floor0(Balance(s, t.account) + Delta(p, t, purchase)));
      var both := Balance(After(schema, After(schema, s, c, now), c', now'), t.account);
      && Step(schema, s, c', now').Ok?
      && both == Floor0(once + Delta(p, t, purchase'))
      && (both == Balance(After(schema, s, c', now'), t.account) <==>
          once == b || (b + Delta(p, t, purchase') <= 0 && once + Delta(p, t, purchase') <= 0))
  {
    var c := Correction(p, t, purchase, id);
    StepPosts(schema, s, c, now);
    AdjustKeepsCorrectable(schema, s, c, now, id', t.id, now');
  }

  lemma AdjustKeepsCorrectable(schema: Schema, s: Tables, c: Op, now: int, id: Id, original: Id, now': int)
    requires c.AdjustTx? && Step(schema, s, c, now).Ok?
    ensures var log := Step(schema, s, c, now).value.log;
      && (!HasId(log, id) ==> !HasId(s.log, id))
      && (Correctable(log, original, now') <==> Correctable(s.log, original, now'))
  {
    var log := Step(schema, s, c, now).value.log;
    assert log[..|s.log|] == s.log && forall t <- s.log :: t in log;
    assert forall t <- log :: t in s.log || (t == log[|s.log|] && t.correctableUntil == None);
  }

  /** The amount to ask for, or why there is none. */
  method CashbackFor(p: Program, purchase: real) returns (r: Result<int, Error>)
    ensures r == Credit(p, purchase)
  {
    if p.minTicket.Some? && purchase < p.minTicket.value {
      return Err(BelowMinimum);
    }
    var cashbackAmount := CashbackCents(purchase, p.rate);
    if cashbackAmount <= 0 {
      return Err(NothingToCredit);
    }
    if p.maxPerTx.Some? && cashbackAmount > p.maxPerTx.value {
      cashbackAmount := p.maxPerTx.value;
    }
    if cashbackAmount <= 0 {
      return Err(NothingToCredit);
    }
    r := Ok(cashbackAmount);
  }

  class Service {
    const repo: Repository
    var programs: map<Id, Program>

    constructor (repo: Repository)
      ensures this.repo == repo
    {
      this.repo := repo;
      programs := map[];
    }

    /** Credits the cashback of a purchase; a refusal at any stage changes no table. */
    method AddCashback(a: Account, purchase: real, inv: Option<Invoice>, norm: Normaliser, id: Id, serviceNow: int,
        now: int)
      returns (r: Result<Transaction, Error>, ghost fp: Fingerprint)
      modifies repo
      ensures r.Err? ==> repo.Now() == old(repo.Now())
      ensures r.Ok? ==> repo.log == old(repo.log) + [r.value]
      ensures if a.program !in programs then r == Err(NotFound)
        else
          var p := programs[a.program];
          var credit := Credit(p, purchase);
          if credit.Err? then r == Err(credit.error)
          else
            var op := CashbackOp(p, a, purchase, fp, id, serviceNow);
            && IsFingerprint(norm, inv, fp)
            && repo.Now() == After(repo.schema, old(repo.Now()), op, now)
            && (r.Err? <==> Step(repo.schema, old(repo.Now()), op, now).Err?)
    {
      fp := NO_FINGERPRINT;
      if a.program !in programs {
        return Err(NotFound), fp;
      }
      var amount := CashbackFor(programs[a.program], purchase);
      if amount.Err? {
        return Err(amount.error), fp;
      }
      var computed := ComputeFingerprint(norm, inv);
      fp := computed;
      r := repo.AddTx(id, a, amount.value, CapOf(programs[a.program]), computed, serviceNow + CORRECTION_WINDOW, now);
    }

    /** Expires lazily when the program asks for it, and otherwise reads the stored balance. */
    method CheckBalance(a: Account, uuid: nat -> Id, now: int) returns (b: int, ghost rows: seq<Transaction>)
      modifies repo
      ensures b == Balance(repo.Now(), a)
      ensures if a.program in programs && programs[a.program].expiryDays.Some? then
          var op := ExpireTx(a, programs[a.program].expiryDays.value, rows, Drawn(uuid, |rows|));
          && Enabled(old(repo.Now()), Event(op, now))
          && repo.Now() == After(repo.schema, old(repo.Now()), op, now)
        else repo.Now() == old(repo.Now())
    {
      rows := [];
      if a.program in programs && programs[a.program].expiryDays.Some? {
        var r;
        r, rows := repo.ExpireBalance(a, programs[a.program].expiryDays.value, uuid, now);
        if r.Ok? {
          return r.value, rows;
        }
      }
      b := repo.GetBalance(a);
    }

    method UpdateCashback(original: Id, newPurchase: real, id: Id, serviceNow: int, now: int)
      returns (r: Result<Transaction, Error>)
      modifies repo
      ensures r.Err? ==> repo.Now() == old(repo.Now())
      ensures var found := FindTransaction(old(repo.log), original);
        if found.None? then r == Err(NotFound)
        else if found.value.correctableUntil.None? || serviceNow > found.value.correctableUntil.value then
          r == Err(NotCorrectable)
        else if found.value.account.program !in programs then r == Err(NotFound)
        else
          var op := AdjustTx(id, found.value.account,
            Delta(programs[found.value.account.program], found.value, newPurchase), original);
          repo.Now() == After(repo.schema, old(repo.Now()), op, now)
          && (r.Ok? <==> Step(repo.schema, old(repo.Now()), op, now).Ok?)
    {
      var found := FindTransaction(repo.log, original);
      if found.None? {
        return Err(NotFound);
      }
      var t := found.value;
      if t.correctableUntil.None? || serviceNow > t.correctableUntil.value {
        return Err(NotCorrectable);
      }
      if t.account.program !in programs {
        return Err(NotFound);
      }
      var newCashback := CashbackCents(newPurchase, programs[t.account.program].rate);
      r := repo.AdjustTx(id, t.account, newCashback - t.amount, original, now);
    }

    /** The burn and its redemption are both of the reward's cost as read. */
    method RequestRedemption(a: Account, rewardId: Id, redemptionId: Id, id: Id, code: string, serviceNow: int,
        now: int)
      returns (r: Result<Redemption, Error>)
      modifies repo
      ensures r.Err? ==> repo.Now() == old(repo.Now())
      ensures var s := old(repo.Now());
        if rewardId !in s.rewards then r == Err(NotFound)
        else if Balance(s, a) < s.rewards[rewardId].cost then r == Err(InsufficientBalance)
        else
          var op := BurnTx(
            id, a, rewardId, s.rewards[rewardId].cost, redemptionId, code, serviceNow + REDEMPTION_EXPIRY);
          repo.Now() == After(repo.schema, s, op, now) && (r.Ok? <==> Step(repo.schema, s, op, now).Ok?)
    {
      if rewardId !in repo.rewards {
        return Err(NotFound);
      }
      var cost := repo.rewards[rewardId].cost;
      var balance := repo.GetBalance(a);
      if balance < cost {
        return Err(InsufficientBalance);
      }
      r := repo.BurnTx(id, a, rewardId, cost, redemptionId, code, serviceNow + REDEMPTION_EXPIRY, now);
    }

    /** `cachedType` is the type of the cached code just consumed, if there was one. */
    method ConfirmRedemption(code: string, cachedType: Option<string>, now: int) returns (r: Result<Redemption, Error>)
      modifies repo
      ensures r.Err? ==> repo.Now() == old(repo.Now())
      ensures var found := FindByCode(old(repo.redemptions), code);
        && (r.Ok? <==> && (cachedType.Some? ==> cachedType.value == "cb_redemption")
                       && found.Some? && found.value.status == Pending && now <= found.value.expiresAt)
        && (r.Ok? ==> r.value == found.value.(status := Confirmed)
                      && repo.Now() == After(repo.schema, old(repo.Now()), ConfirmTx(found.value.id), 0)
                      && r.value in repo.redemptions)
    {
      if cachedType.Some? && cachedType.value != "cb_redemption" {
        return Err(WrongCodeType);
      }
      var found := FindByCode(repo.redemptions, code);
      if found.None? {
        return Err(NotFound);
      }
      var rd := found.value;
      if rd.status != Pending {
        return Err(NotPending);
      }
      if now > rd.expiresAt {
        return Err(CodeExpired);
      }
      ghost var i :| 0 <= i < |repo.redemptions| && repo.redemptions[i] == rd;
      repo.ConfirmRedemption(rd.id);
      assert repo.redemptions[i] == rd.(status := Confirmed);
      r := Ok(rd.(status := Confirmed));
    }
  }
}
