/**
 The points service. Its tables are the cashback tables with one difference in the schema:
 the transaction table admits earns, burns and adjustments only.
 */
module EarnBurnService {
  import opened Wrappers
  import opened Clock
  import opened Receipts
  import opened Ledger
  import opened LedgerExpiry
  import opened LedgerRepository
  import opened Accrual
  import opened CashbackService

  datatype PointsProgram = PointsProgram(ratio: int, expiryDays: Option<int>, minTicket: Option<real>)

  class PointsService {
    const repo: Repository
    var programs: map<Id, PointsProgram>

    ghost predicate Valid()
      reads this
    {
      repo.schema == EARN_BURN && forall id <- programs :: programs[id].ratio > 0
    }

    constructor (repo: Repository)
      requires repo.schema == EARN_BURN
      ensures Valid() && this.repo == repo
    {
      this.repo := repo;
      programs := map[];
    }

    /** Credits the points of a purchase; there is no period cap. */
    method AddPoints(a: Account, purchase: real, inv: Option<Invoice>, norm: Normaliser, id: Id, serviceNow: int,
        now: int)
      returns (r: Result<Transaction, Error>, ghost fp: Fingerprint)
      requires Valid()
      modifies repo
      ensures Valid()
      ensures r.Err? ==> repo.Now() == old(repo.Now())
      ensures a.program !in programs ==> r == Err(NotFound)
      ensures a.program in programs ==>
        var (p, s) := (programs[a.program], old(repo.Now()));
        var credit := PointsCredit(p.minTicket, p.ratio, purchase);
        && (credit.Err? ==> r == Err(credit.error))
        && (credit.Ok? ==>
            var op := AddTx(id, a, credit.value, None, fp, serviceNow + CORRECTION_WINDOW);
            && IsFingerprint(norm, inv, fp) && repo.Now() == After(EARN_BURN, s, op, now)
            && (r.Err? <==> Step(EARN_BURN, s, op, now).Err?))
      ensures r.Ok? ==> r.value.amount == Points(purchase, programs[a.program].ratio) > 0
    {
      if a.program !in programs {
        return Err(NotFound), NO_FINGERPRINT;
      }
      var p := programs[a.program];
      if p.minTicket.Some? && purchase < p.minTicket.value {
        return Err(BelowMinimum), NO_FINGERPRINT;
      }
      var points := Points(purchase, p.ratio);
      if points <= 0 {
        return Err(NothingToCredit), NO_FINGERPRINT;
      }
      var computed := ComputeFingerprint(norm, inv);
      fp := computed;
      r := repo.AddTx(id, a, points, None, computed, serviceNow + CORRECTION_WINDOW, now);
    }

    /**
     Asks for a lazy expiry and falls back on the stored balance when it fails. Because the
     table admits no expiration row, the answer is always the stored balance and points
     never expire, whatever the program's expiry.
     */
    method CheckBalance(a: Account, uuid: nat -> Id, now: int) returns (b: int)
      requires Valid()
      modifies repo
      ensures Valid()
      ensures repo.Now() == old(repo.Now()) && b == Balance(old(repo.Now()), a)
    {
      if a.program in programs && programs[a.program].expiryDays.Some? {
        var r, rows := repo.ExpireBalance(a, programs[a.program].expiryDays.value, uuid, now);
        EarnBurnNeverExpires(old(repo.Now()), Event(
          ExpireTx(a, programs[a.program].expiryDays.value, rows, Drawn(uuid, |rows|)), now));
        if r.Ok? {
          return r.value;
        }
      }
      b := repo.GetBalance(a);
    }

    /** A correction sets the points directly, and moves the balance by the difference from the original. */
    method UpdatePoints(original: Id, newAmount: int, id: Id, serviceNow: int, now: int)
        returns (r: Result<Transaction, Error>)
      requires Valid()
      modifies repo
      ensures Valid()
      ensures r.Err? ==> repo.Now() == old(repo.Now())
      ensures var found := FindTransaction(old(repo.log), original);
        if found.None? then r == Err(NotFound)
        else if found.value.correctableUntil.None? || serviceNow > found.value.correctableUntil.value then
          r == Err(NotCorrectable)
        else
          var op := AdjustTx(id, found.value.account, newAmount - found.value.amount, original);
          repo.Now() == After(EARN_BURN, old(repo.Now()), op, now)
          && (r.Ok? <==> Step(EARN_BURN, old(repo.Now()), op, now).Ok?)
    {
      var found := FindTransaction(repo.log, original);
      if found.None? {
        return Err(NotFound);
      }
      if found.value.correctableUntil.None? || serviceNow > found.value.correctableUntil.value {
        return Err(NotCorrectable);
      }
      r := repo.AdjustTx(id, found.value.account, newAmount - found.value.amount, original, now);
    }
  }
}
