/**
 Redeeming completed cards: a client asks for a code, and a collaborator confirms it. Codes
 live an hour in a store of their own; drawing one that is in use replaces it.
 */
module PushcardRedemption {
  import opened Wrappers
  import opened Clock
  import opened Pushcard
  import PushcardService

  const REDEMPTION_TTL := 1 * HOUR
  const PAGE := 50

  datatype Code = Code(card: nat, client: Id, until: int)

  datatype Desk = Desk(tables: Tables, codes: map<string, Code>)

  datatype Refusal = NoCompletedCard | InvalidCode | CardError(error: Pushcard.Error)

  /** `listing` is the page of completed cards that the query answers with. */
  datatype Act =
    | OnCards(op: Op)
    | Request(holder: Holder, code: string, listing: seq<nat>)
    | Confirm(code: string)

  /** A completed card of the program. */
  predicate IsCandidate(cards: seq<Card>, program: Id, k: nat) {
    k < |cards| && cards[k].holder.program == program && cards[k].status == Completed
  }

  predicate Distinct<T(==)>(xs: seq<T>) {
    forall i, j :: 0 <= i < j < |xs| ==> xs[i] != xs[j]
  }

  /** Newest first, ties in any order. */
  ghost predicate NewestFirst(cards: seq<Card>, listing: seq<nat>)
    requires forall i :: 0 <= i < |listing| ==> listing[i] < |cards|
  {
    forall i, j :: 0 <= i < j < |listing| ==> cards[listing[j]].updatedAt <= cards[listing[i]].updatedAt
  }

  /** Card `k` is no newer than any card listed. */
  ghost predicate Behind(cards: seq<Card>, listing: seq<nat>, k: nat)
    requires k < |cards| && forall i :: 0 <= i < |listing| ==> listing[i] < |cards|
  {
    forall i :: 0 <= i < |listing| ==> cards[k].updatedAt <= cards[listing[i]].updatedAt
  }

  /** The first page of the program's completed cards, the last updated first: all of them if they fit. */
  ghost predicate IsListing(cards: seq<Card>, program: Id, listing: seq<nat>) {
    && |listing| <= PAGE && Distinct(listing)
    && (forall i :: 0 <= i < |listing| ==> IsCandidate(cards, program, listing[i]))
    && NewestFirst(cards, listing)
    && (forall k :: IsCandidate(cards, program, k) && k !in listing ==> |listing| == PAGE && Behind(cards, listing, k))
  }

  function FirstOf(cards: seq<Card>, listing: seq<nat>, client: Id): (r: Option<nat>)
    requires forall i :: 0 <= i < |listing| ==> listing[i] < |cards|
    ensures r.Some? ==> r.value in listing && cards[r.value].holder.client == client
    ensures r.None? ==> forall i :: 0 <= i < |listing| ==> cards[listing[i]].holder.client != client
  {
    if listing == [] then None
    else if cards[listing[0]].holder.client == client then Some(listing[0])
    else FirstOf(cards, listing[1..], client)
  }

  function LiveCode(codes: map<string, Code>, code: string, now: int): Option<Code> {
    if code in codes && now < codes[code].until then Some(codes[code]) else None
  }

  ghost predicate Possible(d: Desk, act: Act) {
    act.Request? ==> IsListing(d.tables.cards, act.holder.program, act.listing)
  }

  /** The first of the client's cards on the page gets a code. */
  function Given(d: Desk, h: Holder, code: string, listing: seq<nat>, now: int): (Desk, Option<Refusal>)
    requires forall i :: 0 <= i < |listing| ==> listing[i] < |d.tables.cards|
  {
    var card := FirstOf(d.tables.cards, listing, h.client);
    if card.None? then (d, Some(NoCompletedCard))
    else (d.(codes := d.codes[code := Code(card.value, h.client, now + REDEMPTION_TTL)]), None)
  }

  /** The code is used up, live or not, and its card redeemed if it is completed. */
  function Used(d: Desk, code: string, now: int): (Desk, Option<Refusal>) {
    var c := LiveCode(d.codes, code, now);
    var d' := d.(codes := d.codes - {code});
    if c.None? then (d', Some(InvalidCode))
    else (d'.(tables := SetStatus(d.tables, c.value.card, Completed, Redeemed, now)), None)
  }

  ghost function Outcome(configs: map<Id, Config>, d: Desk, act: Act, now: int): (Desk, Option<Refusal>)
    requires Possible(d, act)
  {
    match act
    case OnCards(op) =>
      var (s, e) := Pushcard.Step(configs, d.tables, op, now);
      (d.(tables := s), if e.Some? then Some(CardError(e.value)) else None)
    case Request(h, code, listing) => Given(d, h, code, listing, now)
    case Confirm(code) => Used(d, code, now)
  }

  // ---------- what done cards stay ----------

  /** Card `k` of `s` is still there in `s'`, with the same holder, and no less done. */
  ghost predicate StaysDone(s: Tables, s': Tables, k: nat)
    requires k < |s.cards|
  {
    && k < |s'.cards| && s'.cards[k].holder == s.cards[k].holder
    && (Done(s.cards[k].status) ==> Done(s'.cards[k].status))
    && (s.cards[k].status == Redeemed ==> s'.cards[k].status == Redeemed)
  }

  lemma SettleStaysDone(c: Config, s: Tables, h: Holder, open: bool, now: int, k: nat)
    requires k < |s.cards|
    ensures var (s', card) := Settle(c, s, h, open, now); StaysDone(s, s', k) && (open ==> card.Some?)
  {}

  lemma StampStaysDone(c: Config, s: Tables, card: nat, t: Stamp, k: nat)
    requires k < |s.cards|
    ensures StaysDone(s, Stamped(c, s, card, t).0, k)
  {}

  lemma CardsStayDone(configs: map<Id, Config>, s: Tables, op: Op, now: int, k: nat)
    requires k < |s.cards|
    ensures StaysDone(s, Pushcard.Step(configs, s, op, now).0, k)
  {
    match op
    case AddStamp(h, collaborator, id) =>
      if h.program in configs {
        var (s', card) := Settle(configs[h.program], s, h, true, now);
        SettleStaysDone(configs[h.program], s, h, true, now, k);
        StampStaysDone(configs[h.program], s', card.value, Stamp(id, card.value, collaborator, now), k);
      }
    case Progress(h) =>
      if h.program in configs {
        SettleStaysDone(configs[h.program], s, h, false, now, k);
      }
    case _ =>
  }

  lemma DeskStaysDone(configs: map<Id, Config>, d: Desk, act: Act, now: int, k: nat)
    requires Possible(d, act) && k < |d.tables.cards|
    ensures StaysDone(d.tables, Outcome(configs, d, act, now).0.tables, k)
  {
    if act.OnCards? {
      CardsStayDone(configs, d.tables, act.op, now, k);
    }
  }

  // ---------- runs ----------

  datatype Turn = Turn(act: Act, now: int)

  ghost predicate IsRun(configs: map<Id, Config>, run: seq<Turn>)
    decreases |run|, 0
  {
    run == [] || (IsRun(configs, run[..|run| - 1]) && Possible(State(configs, run[..|run| - 1]), run[|run| - 1].act))
  }

  ghost function State(configs: map<Id, Config>, run: seq<Turn>): Desk
    requires IsRun(configs, run)
    decreases |run|, 1
  {
    if run == [] then Desk(Pushcard.EMPTY, map[])
    else
      var e := run[|run| - 1];
      Outcome(configs, State(configs, run[..|run| - 1]), e.act, e.now).0
  }

  ghost predicate Succeeds(configs: map<Id, Config>, d: Desk, e: Turn) {
    Possible(d, e.act) && Outcome(configs, d, e.act, e.now).1 == None
  }

  ghost predicate CodeHolds(s: Tables, c: Code) {
    c.card < |s.cards| && s.cards[c.card].holder.client == c.client && Done(s.cards[c.card].status)
  }

  /** Every code in the store is for a completed or redeemed card of the client it was given to. */
  lemma {:induction false} CodesAreOfDoneCards(configs: map<Id, Config>, run: seq<Turn>, code: string)
    requires IsRun(configs, run) && code in State(configs, run).codes
    ensures CodeHolds(State(configs, run).tables, State(configs, run).codes[code])
  {
    var (before, e) := (run[..|run| - 1], run[|run| - 1]);
    var (d, d') := (State(configs, before), State(configs, run));
    if code in d.codes && d'.codes[code] == d.codes[code] {
      CodesAreOfDoneCards(configs, before, code);
      DeskStaysDone(configs, d, e.act, e.now, d.codes[code].card);
    }
  }

  /** A confirmed code is gone and its card redeemed; the tables change only if the card was not redeemed before. */
  lemma ConfirmationRedeems(configs: map<Id, Config>, run: seq<Turn>, code: string, now: int)
    requires IsRun(configs, run) && Succeeds(configs, State(configs, run), Turn(Confirm(code), now))
    ensures var d := State(configs, run);
      var (d', k) := (Outcome(configs, d, Confirm(code), now).0, d.codes[code].card);
      && code !in d'.codes && now < d.codes[code].until
      && k < |d'.tables.cards| && d'.tables.cards[k].status == Redeemed
        && d'.tables.cards[k].holder.client == d.codes[code].client
      && (d'.tables == d.tables <==> d.tables.cards[k].status == Redeemed)
  {
    CodesAreOfDoneCards(configs, run, code);
  }

  /** The last time the code was given out, or entered. */
  ghost function LastUse(configs: map<Id, Config>, run: seq<Turn>, code: string): (r: Option<nat>)
    requires IsRun(configs, run)
    ensures r.Some? ==> r.value < |run|
  {
    if run == [] then None
    else
      var (before, e) := (run[..|run| - 1], run[|run| - 1]);
      if !e.act.OnCards? && e.act.code == code && (e.act.Confirm? || Succeeds(configs, State(configs, before), e))
      then Some(|run| - 1) else LastUse(configs, before, code)
  }

  lemma {:induction false} CodeIsLastGiven(configs: map<Id, Config>, run: seq<Turn>, code: string)
    requires IsRun(configs, run)
    ensures var (d, last) := (State(configs, run), LastUse(configs, run, code));
      && (code in d.codes <==> last.Some? && run[last.value].act.Request?)
      && (code in d.codes ==>
          var e := run[last.value];
          d.codes[code].until == e.now + 3600 * SECOND && d.codes[code].client == e.act.holder.client)
  {
    if run != [] {
      var (before, e) := (run[..|run| - 1], run[|run| - 1]);
      CodeIsLastGiven(configs, before, code);
      CodeAfter(configs, State(configs, before), e, code);
    }
  }

  lemma CodeAfter(configs: map<Id, Config>, d: Desk, e: Turn, code: string)
    requires Possible(d, e.act)
    ensures var codes := Outcome(configs, d, e.act, e.now).0.codes;
      if e.act.OnCards? || e.act.code != code || (e.act.Request? && !Succeeds(configs, d, e)) then
        (code in codes <==> code in d.codes) && (code in codes ==> codes[code] == d.codes[code])
      else
        && (code in codes <==> e.act.Request?)
        && (code in codes ==>
            codes[code].until == e.now + 3600 * SECOND && codes[code].client == e.act.holder.client)
  {}

  /**
   In any run a code is confirmed exactly when it was given out less than an hour ago and neither
   given out again nor entered since.
   */
  lemma CodeWorksForAnHour(configs: map<Id, Config>, run: seq<Turn>, code: string, now: int)
    requires IsRun(configs, run)
    ensures var last := LastUse(configs, run, code);
      Outcome(configs, State(configs, run), Confirm(code), now).1 ==
        if last.Some? && run[last.value].act.Request? && now < run[last.value].now + 3600 * SECOND then None
        else Some(InvalidCode)
  {
    CodeIsLastGiven(configs, run, code);
  }

  /** A redeemed card stays redeemed. */
  lemma {:induction false} RedeemedForGood(configs: map<Id, Config>, run: seq<Turn>, i: nat, k: nat)
    requires IsRun(configs, run) && i <= |run|
    ensures IsRun(configs, run[..i])
    ensures var (earlier, later) := (State(configs, run[..i]).tables.cards, State(configs, run).tables.cards);
      k < |earlier| && earlier[k].status == Redeemed ==> k < |later| && later[k].status == Redeemed
  {
    if i == |run| {
      assert run[..i] == run;
    } else {
      var (before, e) := (run[..|run| - 1], run[|run| - 1]);
      assert before[..i] == run[..i];
      RedeemedForGood(configs, before, i, k);
      if k < |State(configs, before).tables.cards| {
        DeskStaysDone(configs, State(configs, before), e.act, e.now, k);
      }
    }
  }

  // ---------- confirmations and codes ----------

  /** The codes given out. */
  ghost function Issued(configs: map<Id, Config>, run: seq<Turn>): nat
    requires IsRun(configs, run)
  {
    if run == [] then 0
    else
      var (before, e) := (run[..|run| - 1], run[|run| - 1]);
      Issued(configs, before) + if e.act.Request? && Succeeds(configs, State(configs, before), e) then 1 else 0
  }

  ghost function Confirmations(configs: map<Id, Config>, run: seq<Turn>): nat
    requires IsRun(configs, run)
  {
    if run == [] then 0
    else
      var (before, e) := (run[..|run| - 1], run[|run| - 1]);
      Confirmations(configs, before) + if e.act.Confirm? && Succeeds(configs, State(configs, before), e) then 1 else 0
  }

  lemma CodesOf(codes: map<string, Code>, code: string, c: Code)
    ensures |codes[code := c]| <= |codes| + 1
    ensures |codes - {code}| == |codes| - if code in codes then 1 else 0
  {
    assert codes[code := c].Keys == codes.Keys + {code};
    assert (codes - {code}).Keys == codes.Keys - {code};
  }

  lemma GivenIsOneMore(d: Desk, h: Holder, code: string, listing: seq<nat>, now: int)
    requires forall i :: 0 <= i < |listing| ==> listing[i] < |d.tables.cards|
    ensures var r := Given(d, h, code, listing, now); |r.0.codes| <= |d.codes| + if r.1 == None then 1 else 0
  {
    var card := FirstOf(d.tables.cards, listing, h.client);
    if card.Some? {
      CodesOf(d.codes, code, Code(card.value, h.client, now + REDEMPTION_TTL));
    }
  }

  lemma UsedIsOneLess(d: Desk, code: string, now: int)
    ensures var r := Used(d, code, now); |r.0.codes| + (if r.1 == None then 1 else 0) <= |d.codes|
  {
    CodesOf(d.codes, code, Code(0, "", 0));
  }

  lemma CardsKeepCodes(configs: map<Id, Config>, d: Desk, e: Turn)
    requires e.act.OnCards?
    ensures Outcome(configs, d, e.act, e.now).0.codes == d.codes
  {}

  /** Each confirmation uses up a code that was given out: those used and those left were all issued. */
  lemma {:induction false} ConfirmationsAreIssued(configs: map<Id, Config>, run: seq<Turn>)
    requires IsRun(configs, run)
    ensures Confirmations(configs, run) + |State(configs, run).codes| <= Issued(configs, run)
  {
    if run != [] {
      ConfirmationsAreIssued(configs, run[..|run| - 1]);
      var (d, e) := (State(configs, run[..|run| - 1]), run[|run| - 1]);
      match e.act
      case OnCards(_) => CardsKeepCodes(configs, d, e);
      case Request(h, code, listing) => GivenIsOneMore(d, h, code, listing, e.now);
      case Confirm(code) => UsedIsOneLess(d, code, e.now);
    }
  }

  /** But not one confirmation per card: two codes drawn for one card are both confirmed. */
  lemma TwoCodesConfirmTwice(configs: map<Id, Config>, d: Desk, h: Holder, k: nat, x: string, y: string, now: int)
    requires IsListing(d.tables.cards, h.program, [k]) && d.tables.cards[k].holder == h && x != y
    ensures
      var d1 := Outcome(configs, d, Request(h, x, [k]), now).0;
      Possible(d1, Request(h, y, [k])) &&
      var d2 := Outcome(configs, d1, Request(h, y, [k]), now).0;
      var (d3, first) := Outcome(configs, d2, Confirm(x), now);
      var (d4, second) := Outcome(configs, d3, Confirm(y), now);
      first == None && second == None && d3.tables.cards[k].status == Redeemed && d4.tables == d3.tables
  {}

  // ---------- when a request finds its card ----------

  predicate IsOwn(cards: seq<Card>, h: Holder, k: nat) {
    IsCandidate(cards, h.program, k) && cards[k].holder.client == h.client
  }

  /** Completed cards of other clients, updated at the instant or after it. */
  predicate IsAhead(cards: seq<Card>, h: Holder, since: int, k: nat) {
    IsCandidate(cards, h.program, k) && cards[k].holder.client != h.client && since <= cards[k].updatedAt
  }

  function Own(cards: seq<Card>, h: Holder): (r: set<nat>)
    ensures forall k: nat :: k in r <==> IsOwn(cards, h, k)
  {
    set k: nat | k < |cards| && IsOwn(cards, h, k)
  }

  function Ahead(cards: seq<Card>, h: Holder, since: int): (r: set<nat>)
    ensures forall k: nat :: k in r <==> IsAhead(cards, h, since, k)
  {
    set k: nat | k < |cards| && IsAhead(cards, h, since, k)
  }

  lemma {:induction false} DistinctFits<T>(xs: seq<T>, s: set<T>)
    requires Distinct(xs) && forall x <- xs :: x in s
    ensures |xs| <= |s|
  {
    if xs != [] {
      var (init, x) := (xs[..|xs| - 1], xs[|xs| - 1]);
      DistinctFits(init, s - {x});
    }
  }

  lemma {:induction false} NewestOf(cards: seq<Card>, s: set<nat>) returns (k: nat)
    requires s != {} && forall x <- s :: x < |cards|
    ensures k in s && forall x <- s :: cards[x].updatedAt <= cards[k].updatedAt
  {
    k :| k in s;
    if s != {k} {
      var other := NewestOf(cards, s - {k});
      if cards[k].updatedAt < cards[other].updatedAt {
        k := other;
      }
    }
  }

  /** The `n` newest cards of a set, in order. */
  lemma {:induction false} TopOf(cards: seq<Card>, s: set<nat>, n: nat) returns (xs: seq<nat>)
    requires n <= |s| && forall x <- s :: x < |cards|
    ensures |xs| == n && Distinct(xs) && (forall i :: 0 <= i < n ==> xs[i] in s)
    ensures NewestFirst(cards, xs) && forall x <- s :: x in xs || Behind(cards, xs, x)
  {
    if n == 0 {
      xs := [];
    } else {
      var k := NewestOf(cards, s);
      var rest := TopOf(cards, s - {k}, n - 1);
      xs := [k] + rest;
      forall x | x in s ensures x in xs || Behind(cards, xs, x) {
        assert x in rest ==> x in xs;
        assert k in xs by { assert xs[0] == k; }
      }
    }
  }

  /** A page without the client, when every card of the client's has a page of others ahead of it. */
  lemma PageWithout(cards: seq<Card>, h: Holder) returns (page: seq<nat>)
    requires forall k <- Own(cards, h) :: |Ahead(cards, h, cards[k].updatedAt)| >= PAGE
    ensures IsListing(cards, h.program, page) && FirstOf(cards, page, h.client).None?
  {
    if Own(cards, h) == {} {
      var all := set k: nat | k < |cards| && IsCandidate(cards, h.program, k);
      page := TopOf(cards, all, if |all| < PAGE then |all| else PAGE);
      if |all| < PAGE {
        TakesAll(page, all);
      }
      assert forall i :: 0 <= i < |page| ==> !IsOwn(cards, h, page[i]);
    } else {
      var k := NewestOf(cards, Own(cards, h));
      page := TopOf(cards, Ahead(cards, h, cards[k].updatedAt), PAGE);
      forall x: nat | IsCandidate(cards, h.program, x) && x !in page ensures Behind(cards, page, x) {
        assert x in Own(cards, h) || x in Ahead(cards, h, cards[k].updatedAt)
          || cards[x].updatedAt < cards[k].updatedAt;
      }
    }
  }

  lemma TakesAll<T>(xs: seq<T>, s: set<T>)
    requires |xs| == |s| && Distinct(xs) && forall i :: 0 <= i < |xs| ==> xs[i] in s
    ensures forall x <- s :: x in xs
  {
    forall x | x in s ensures x in xs {
      if x !in xs {
        assert forall y <- xs :: y in s - {x};
        DistinctFits(xs, s - {x});
      }
    }
  }

  /**
   A client is sure to get a code exactly when some completed card of the client's has fewer
   than a page of other clients' completed cards updated no earlier than it.
   */
  lemma FoundIffNearTheTop(cards: seq<Card>, h: Holder)
    ensures (exists k <- Own(cards, h) :: |Ahead(cards, h, cards[k].updatedAt)| < PAGE) <==>
      forall listing :: IsListing(cards, h.program, listing) ==> FirstOf(cards, listing, h.client).Some?
  {
    if k :| k in Own(cards, h) && |Ahead(cards, h, cards[k].updatedAt)| < PAGE {
      forall listing | IsListing(cards, h.program, listing) ensures FirstOf(cards, listing, h.client).Some? {
        if FirstOf(cards, listing, h.client).None? {
          MissedIsFarDown(cards, h, k, listing);
        }
      }
    } else {
      var page := PageWithout(cards, h);
    }
  }

  lemma MissedIsFarDown(cards: seq<Card>, h: Holder, k: nat, listing: seq<nat>)
    requires IsOwn(cards, h, k) && IsListing(cards, h.program, listing) && FirstOf(cards, listing, h.client).None?
    ensures |Ahead(cards, h, cards[k].updatedAt)| >= PAGE
  {
    assert k !in listing;
    DistinctFits(listing, Ahead(cards, h, cards[k].updatedAt));
  }

  /** The code a client gets is for the completed card of the client's that was updated last. */
  lemma CodeIsForNewest(cards: seq<Card>, h: Holder, listing: seq<nat>, k: nat)
    requires IsListing(cards, h.program, listing) && FirstOf(cards, listing, h.client).Some? && IsOwn(cards, h, k)
    ensures var card := FirstOf(cards, listing, h.client).value;
      IsOwn(cards, h, card) && cards[k].updatedAt <= cards[card].updatedAt
  {
    var card := FirstOf(cards, listing, h.client).value;
    if k in listing {
      FirstIsNewest(cards, listing, h.client, k);
    }
  }

  lemma {:induction false} FirstIsNewest(cards: seq<Card>, listing: seq<nat>, client: Id, k: nat)
    requires forall i :: 0 <= i < |listing| ==> listing[i] < |cards|
    requires NewestFirst(cards, listing) && k in listing && cards[k].holder.client == client
    ensures FirstOf(cards, listing, client).Some?
      && cards[k].updatedAt <= cards[FirstOf(cards, listing, client).value].updatedAt
  {
    if cards[listing[0]].holder.client != client {
      FirstIsNewest(cards, listing[1..], client, k);
    }
  }

  // ---------- the service ----------

  class Service {
    const repo: PushcardService.Repository
    var codes: map<string, Code>

    ghost function Model(): Desk
      reads this, repo
    {
      Desk(repo.Now(), codes)
    }

    constructor (repo: PushcardService.Repository)
      ensures this.repo == repo && codes == map[]
    {
      this.repo, codes := repo, map[];
    }

    /** The first of the given cards in the order of the query. */
    method NextOf(left: set<nat>) returns (k: nat)
      requires left != {} && forall x <- left :: x < |repo.cards|
      ensures k in left && forall x <- left :: repo.cards[x].updatedAt <= repo.cards[k].updatedAt
    {
      k :| k in left;
      var todo := left - {k};
      while todo != {}
        invariant k in left && todo <= left
        invariant forall x <- left - todo :: repo.cards[x].updatedAt <= repo.cards[k].updatedAt
      {
        var x :| x in todo;
        todo := todo - {x};
        if repo.cards[k].updatedAt < repo.cards[x].updatedAt {
          k := x;
        }
      }
    }

    /** The first page of the program's completed cards, the last updated first. */
    method ListCompleted(program: Id) returns (listing: seq<nat>)
      ensures IsListing(repo.cards, program, listing)
    {
      listing := [];
      var left := set k: nat | k < |repo.cards| && IsCandidate(repo.cards, program, k);
      while left != {} && |listing| < PAGE
        invariant |listing| <= PAGE && Distinct(listing)
        invariant forall j :: 0 <= j < |listing| ==> IsCandidate(repo.cards, program, listing[j]) && listing[j] !in left
        invariant forall k: nat :: IsCandidate(repo.cards, program, k) <==> k in left || k in listing
        invariant NewestFirst(repo.cards, listing)
        invariant forall k <- left :: k < |repo.cards| && Behind(repo.cards, listing, k)
      {
        var k := NextOf(left);
        left := left - {k};
        listing := listing + [k];
      }
    }

    /** The first card of the client on the page. */
    method FindOwn(listing: seq<nat>, client: Id) returns (card: Option<nat>)
      requires forall i :: 0 <= i < |listing| ==> listing[i] < |repo.cards|
      ensures card == FirstOf(repo.cards, listing, client)
    {
      for i := 0 to |listing|
        invariant FirstOf(repo.cards, listing, client) == FirstOf(repo.cards, listing[i..], client)
      {
        if repo.cards[listing[i]].holder.client == client {
          return Some(listing[i]);
        }
      }
      card := None;
    }

    method RequestRedemption(h: Holder, code: string, now: int)
        returns (refusal: Option<Refusal>, ghost listing: seq<nat>)
      modifies this`codes
      ensures IsListing(repo.cards, h.program, listing)
      ensures (Model(), refusal) == Given(old(Model()), h, code, listing, now)
    {
      var cards := ListCompleted(h.program);
      listing := cards;
      var card := FindOwn(cards, h.client);
      if card.None? {
        return Some(NoCompletedCard), cards;
      }
      codes := codes[code := Code(card.value, h.client, now + REDEMPTION_TTL)];
      refusal := None;
    }

    method ConfirmRedemption(code: string, now: int) returns (refusal: Option<Refusal>)
      requires repo.Valid()
      modifies this`codes, repo`cards
      ensures repo.Valid()
      ensures (Model(), refusal) == Used(old(Model()), code, now)
    {
      var live := code in codes && now < codes[code].until;
      var card := if live then codes[code].card else 0;
      codes := codes - {code};
      if !live {
        return Some(InvalidCode);
      }
      repo.Move(card, Completed, Redeemed, now);
      refusal := None;
    }
  }
}
