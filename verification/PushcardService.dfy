/** The stamp-card service: a sequence of repository calls, each committed on its own. */
module PushcardService {
  import opened Wrappers
  import opened Clock
  import opened Pushcard

  class Repository {
    var cards: seq<Card>
    var stamps: seq<Stamp>

    ghost function Now(): Tables
      reads this
    {
      Tables(cards, stamps)
    }

    /** The partial unique index on open cards. */
    ghost predicate Valid()
      reads this
    {
      OneOpenEach(cards)
    }

    constructor ()
      ensures Valid() && Now() == EMPTY
    {
      cards, stamps := [], [];
    }

    method GetOpenCard(h: Holder) returns (card: Option<nat>)
      ensures card == OpenCardOf(cards, h)
    {
      card := OpenCardOf(cards, h);
    }

    method OpenCard(h: Holder, now: int) returns (r: Result<nat, Error>)
      requires Valid()
      modifies this`cards
      ensures Valid()
      ensures match Pushcard.OpenCard(old(Now()), h, now)
        case Ok(s) => r == Ok(|old(cards)|) && Now() == s
        case Err(e) => r == Err(e) && Now() == old(Now())
    {
      if OpenCardOf(cards, h).Some? {
        return Err(AlreadyOpen);
      }
      r := Ok(|cards|);
      cards := cards + [Card(h, Open, now, now)];
    }

    method CountStamps(card: nat) returns (n: nat)
      ensures n == Pushcard.CountStamps(stamps, card)
    {
      n := 0;
      for i := 0 to |stamps|
        invariant n == Pushcard.CountStamps(stamps[..i], card)
      {
        CountSnoc(stamps[..i], stamps[i], card);
        assert stamps[..i + 1] == stamps[..i] + [stamps[i]];
        if stamps[i].card == card {
          n := n + 1;
        }
      }
      assert stamps[..|stamps|] == stamps;
    }

    method AddStamp(t: Stamp) returns (failure: Option<Error>)
      modifies this`stamps
      ensures match InsertStamp(old(Now()), t)
        case Ok(s) => failure == None && Now() == s
        case Err(e) => failure == Some(e) && Now() == old(Now())
    {
      if exists u <- stamps :: u.id == t.id {
        return Some(DuplicateStamp);
      }
      stamps := stamps + [t];
      failure := None;
    }

    /** Guarded status update: only a card in the expected status moves. */
    method Move(card: nat, from: Status, to: Status, now: int)
      requires Valid() && to != Open
      modifies this`cards
      ensures Valid()
      ensures Now() == SetStatus(old(Now()), card, from, to, now)
    {
      if card < |cards| && cards[card].status == from {
        cards := cards[card := cards[card].(status := to, updatedAt := now)];
      }
    }

    /** The collaborator's latest stamp inside the window. */
    method LastStampByCollaborator(collaborator: Id, now: int) returns (victim: Option<nat>)
      ensures IsLastStamp(stamps, collaborator, now, victim)
    {
      victim := None;
      for i := 0 to |stamps|
        invariant IsLastStamp(stamps[..i], collaborator, now, victim)
      {
        var t := stamps[i];
        if t.collaborator == collaborator && t.createdAt >= now - CORRECTION_WINDOW
           && (victim.None? || stamps[victim.value].createdAt <= t.createdAt) {
          victim := Some(i);
        }
      }
      assert stamps[..|stamps|] == stamps;
    }

    method DeleteStamp(k: nat)
      requires k < |stamps|
      modifies this`stamps
      ensures stamps == DeleteAt(old(stamps), k)
    {
      stamps := stamps[..k] + stamps[k + 1..];
    }
  }

  class Service {
    const repo: Repository
    const configs: map<Id, Config>

    constructor (repo: Repository, configs: map<Id, Config>)
      ensures this.repo == repo && this.configs == configs
    {
      this.repo, this.configs := repo, configs;
    }

    method ExpireIfStale(c: Config, h: Holder, card: Option<nat>, now: int) returns (r: Option<nat>)
      requires repo.Valid() && card == OpenCardOf(repo.cards, h)
      modifies repo`cards
      ensures repo.Valid() && (r.None? ==> OpenCardOf(repo.cards, h).None?)
      ensures (repo.Now(), r) == Pushcard.ExpireIfStale(c, old(repo.Now()), card, now)
      ensures card.Some? ==>
        (r == card <==> c.expiryDays.None? || now - old(repo.cards)[card.value].createdAt < c.expiryDays.value * DAY)
    {
      if card.None? || c.expiryDays.None? {
        return card;
      }
      if now - repo.cards[card.value].createdAt < c.expiryDays.value * DAY {
        return card;
      }
      repo.Move(card.value, Open, Cancelled, now);
      r := None;
    }

    method AddStamp(h: Holder, collaborator: Id, stampId: Id, now: int) returns (failure: Option<Error>)
      requires repo.Valid()
      modifies repo
      ensures repo.Valid()
      ensures (repo.Now(), failure) == Step(configs, old(repo.Now()), Op.AddStamp(h, collaborator, stampId), now)
    {
      if h.program == "" || h.client == "" || collaborator == "" {
        return Some(MissingField);
      }
      if h.program !in configs {
        return Some(NoConfig);
      }
      var c := configs[h.program];
      var card := repo.GetOpenCard(h);
      var current := ExpireIfStale(c, h, card, now);
      if current.None? {
        var created := repo.OpenCard(h, now);
        current := Some(created.value);
      }
      assert (repo.Now(), current) == Settle(c, old(repo.Now()), h, true, now);
      failure := repo.AddStamp(Stamp(stampId, current.value, collaborator, now));
      if failure.Some? {
        return;
      }
      var count := repo.CountStamps(current.value);
      if count >= c.slots {
        repo.Move(current.value, Open, Completed, now);
      }
    }

    method GetProgress(h: Holder, now: int) returns (r: Result<nat, Error>)
      requires repo.Valid()
      modifies repo
      ensures repo.Valid()
      ensures repo.Now() == Step(configs, old(repo.Now()), Progress(h), now).0
      ensures r == if h.program !in configs then Err(NoConfig)
        else Ok(if OpenCardOf(repo.cards, h).None? then 0
          else Pushcard.CountStamps(repo.stamps, OpenCardOf(repo.cards, h).value))
    {
      if h.program !in configs {
        return Err(NoConfig);
      }
      var card := repo.GetOpenCard(h);
      var current := ExpireIfStale(configs[h.program], h, card, now);
      if current.None? {
        return Ok(0);
      }
      var count := repo.CountStamps(current.value);
      r := Ok(count);
    }

    method UndoLastStamp(collaborator: Id, now: int) returns (failure: Option<Error>, ghost victim: Option<nat>)
      requires repo.Valid()
      modifies repo
      ensures repo.Valid()
      ensures IsLastStamp(old(repo.stamps), collaborator, now, victim)
      ensures (repo.Now(), failure) == Step(configs, old(repo.Now()), Undo(collaborator, victim), now)
    {
      var last := repo.LastStampByCollaborator(collaborator, now);
      victim := last;
      if last.None? || repo.stamps[last.value].card >= |repo.cards| {
        return Some(NoStampToUndo), last;
      }
      var card := repo.cards[repo.stamps[last.value].card];
      if card.status == Cancelled {
        return Some(CardCancelled), last;
      }
      repo.DeleteStamp(last.value);
      if card.status == Completed {
        // A refusal, when the holder already has an open card, is only logged.
        var replacement := repo.OpenCard(card.holder, now);
      }
      failure := None;
    }

    method MarkRedeemed(card: nat, now: int)
      requires repo.Valid()
      modifies repo
      ensures repo.Valid()
      ensures repo.Now() == Step(configs, old(repo.Now()), Op.MarkRedeemed(card), now).0
    {
      repo.Move(card, Completed, Redeemed, now);
    }
  }
}
