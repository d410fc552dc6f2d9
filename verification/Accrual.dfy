/** What a purchase earns in each system, and what the roundings add up to. */
module Accrual {
  import opened Wrappers
  import opened Ledger
  import opened LedgerConservation

  /** Purchases and rates are exact; `minTicket` is in currency, `maxPerTx` in cents. */
  datatype Program = Program(
    rate: real, expiryDays: Option<int>, minTicket: Option<real>, maxPerTx: Option<int>, maxPerPeriod: Option<real>)

  /** Cents of cashback before caps. */
  function CashbackCents(purchase: real, rate: real): int {
    (purchase * rate * 100.0).Floor
  }

  function Points(purchase: real, ratio: int): int
    requires ratio > 0
  {
    (purchase / ratio as real).Floor
  }

  /** The amount the cashback service asks the repository to credit. */
  function Credit(p: Program, purchase: real): Result<int, Error> {
    if p.minTicket.Some? && purchase < p.minTicket.value then Err(BelowMinimum)
    else
      var c := CashbackCents(purchase, p.rate);
      if c <= 0 then Err(NothingToCredit)
      else
        var capped := if p.maxPerTx.Some? && c > p.maxPerTx.value then p.maxPerTx.value else c;
        if capped <= 0 then Err(NothingToCredit) else Ok(capped)
  }

  /** The period cap handed to the repository: the window is the expiry, or thirty days. */
  function CapOf(p: Program): Option<Cap> {
    if p.maxPerPeriod.None? then None
    else Some(Cap(p.maxPerPeriod.value, if p.expiryDays.Some? then p.expiryDays.value else 30))
  }

  function PointsCredit(minTicket: Option<real>, ratio: int, purchase: real): Result<int, Error>
    requires ratio > 0
  {
    if minTicket.Some? && purchase < minTicket.value then Err(BelowMinimum)
    else if Points(purchase, ratio) <= 0 then Err(NothingToCredit)
    else Ok(Points(purchase, ratio))
  }

  // ---------- what the caps leave ----------

  /**
   A credit is positive, within the rate and within the per-transaction cap, and never falls when the
   purchase grows.
   */
  lemma CreditBounds(p: Program, purchase: real, larger: real)
    requires p.rate >= 0.0 && purchase <= larger
    ensures var (c, d) := (Credit(p, purchase), Credit(p, larger));
      c.Ok? ==>
        && 0 < c.value && c.value as real <= purchase * p.rate * 100.0
        && (p.maxPerTx.Some? ==> c.value <= p.maxPerTx.value)
        && d.Ok? && c.value <= d.value
  {
    assert purchase * p.rate <= larger * p.rate;
    assert CashbackCents(purchase, p.rate) <= CashbackCents(larger, p.rate);
  }

  /**
   Refused exactly below the minimum, or when the rate or the cap leaves less than a cent; and
   otherwise the largest whole amount within both.
   */
  lemma CreditIsLargestWhole(p: Program, purchase: real)
    ensures var (r, exact) := (Credit(p, purchase), purchase * p.rate * 100.0);
      && (r.Err? <==>
          || (p.minTicket.Some? && purchase < p.minTicket.value)
          || exact < 1.0
          || (p.maxPerTx.Some? && p.maxPerTx.value < 1))
      && (r.Ok? ==>
          && r.value as real <= exact && (p.maxPerTx.Some? ==> r.value <= p.maxPerTx.value)
          && (exact < (r.value + 1) as real || (p.maxPerTx.Some? && r.value == p.maxPerTx.value)))
  {}

  /**
   Points are refused exactly below the minimum or for less than one ratio; and otherwise they
   are the whole ratios in the purchase.
   */
  lemma PointsAreWholeRatios(minTicket: Option<real>, ratio: int, purchase: real)
    requires ratio > 0
    ensures var r := PointsCredit(minTicket, ratio, purchase);
      && (r.Err? <==> (minTicket.Some? && purchase < minTicket.value) || purchase < ratio as real)
      && (r.Ok? ==> (r.value * ratio) as real <= purchase < (r.value * ratio + ratio) as real)
  {
    PointsBracket(purchase, ratio);
    var k := Points(purchase, ratio);
    if k <= 0 {
      assert k * ratio <= 0;
    } else {
      assert k * ratio >= ratio;
    }
  }

  // ---------- splitting a purchase ----------

  function SumReal(xs: seq<real>): real {
    if xs == [] then 0.0 else SumReal(xs[..|xs| - 1]) + xs[|xs| - 1]
  }

  function SumCashback(xs: seq<real>, rate: real): int {
    if xs == [] then 0 else SumCashback(xs[..|xs| - 1], rate) + CashbackCents(xs[|xs| - 1], rate)
  }

  function SumPoints(xs: seq<real>, ratio: int): int
    requires ratio > 0
  {
    if xs == [] then 0 else SumPoints(xs[..|xs| - 1], ratio) + Points(xs[|xs| - 1], ratio)
  }

  /** Splitting a purchase never earns more cashback, and loses less than a cent per extra part. */
  lemma {:induction false} SplitCashback(xs: seq<real>, rate: real)
    requires xs != []
    ensures SumCashback(xs, rate) <= CashbackCents(SumReal(xs), rate) < SumCashback(xs, rate) + |xs|
  {
    var (init, x) := (xs[..|xs| - 1], xs[|xs| - 1]);
    assert SumReal(xs) * rate * 100.0 == SumReal(init) * rate * 100.0 + x * rate * 100.0;
    if init != [] {
      SplitCashback(init, rate);
    } else {
      assert SumReal(init) == 0.0 && SumCashback(init, rate) == 0;
    }
  }

  /** Splitting a purchase never earns more points, and loses less than a point per extra part. */
  lemma {:induction false} SplitPoints(xs: seq<real>, ratio: int)
    requires xs != [] && ratio > 0
    ensures SumPoints(xs, ratio) <= Points(SumReal(xs), ratio) < SumPoints(xs, ratio) + |xs|
  {
    var (init, x) := (xs[..|xs| - 1], xs[|xs| - 1]);
    assert SumReal(xs) / ratio as real == SumReal(init) / ratio as real + x / ratio as real;
    if init != [] {
      SplitPoints(init, ratio);
    } else {
      assert SumReal(init) == 0.0 && SumPoints(init, ratio) == 0;
    }
  }

  // ---------- the spend metric ----------

  function Earns(log: seq<Transaction>, program: Id): nat {
    if log == [] then 0
    else Earns(log[..|log| - 1], program) + if OfKind(program, Earn)(log[|log| - 1]) then 1 else 0
  }

  /** What the customers of a program really spent on the recorded earns. */
  function TrueSpend(log: seq<Transaction>, program: Id, spent: Id -> real): real {
    if log == [] then 0.0
    else
      TrueSpend(log[..|log| - 1], program, spent) +
      if OfKind(program, Earn)(log[|log| - 1]) then spent(log[|log| - 1].id) else 0.0
  }

  /**
   Rebuilding spend as points times a constant ratio never exceeds what was spent on the n
   recorded earns, and falls short of it by less than n ratios.
   */
  lemma {:induction false} ReconstructedSpend(log: seq<Transaction>, program: Id, ratio: int, spent: Id -> real)
    requires ratio > 0
    requires forall t <- log :: OfKind(program, Earn)(t) ==> t.amount == Points(spent(t.id), ratio)
    ensures IsBracketed(Total(log, OfKind(program, Earn)) * ratio, Earns(log, program) * ratio,
      TrueSpend(log, program, spent))
  {
    if log != [] {
      var (init, t) := (log[..|log| - 1], log[|log| - 1]);
      assert t in log;
      ReconstructedSpend(init, program, ratio, spent);
      if OfKind(program, Earn)(t) {
        PointsBracket(spent(t.id), ratio);
        Distributes(Total(init, OfKind(program, Earn)), t.amount, ratio);
        Distributes(Earns(init, program), 1, ratio);
      }
    }
  }

  /** At least the rebuilt spend, and above it by less than the slack, if there is any. */
  predicate IsBracketed(rebuilt: int, slack: int, spend: real) {
    rebuilt as real <= spend <= (rebuilt + slack) as real && (slack > 0 ==> spend < (rebuilt + slack) as real)
  }

  lemma Distributes(a: int, b: int, c: int)
    ensures (a + b) * c == a * c + b * c
  {}

  lemma PointsBracket(purchase: real, ratio: int)
    requires ratio > 0
    ensures (Points(purchase, ratio) * ratio) as real <= purchase < (Points(purchase, ratio) * ratio + ratio) as real
  {
    var (r, k) := (ratio as real, Points(purchase, ratio));
    var q := purchase / r;
    assert q * r == purchase;
    assert k as real <= q < (k + 1) as real;
    assert k as real * r <= q * r < (k + 1) as real * r;
    assert k as real * r == (k * ratio) as real;
  }
}
