/**
 What each call does to a holder's cards after any run, in the cards' own fields: which card a
 stamp lands on, when a card is cancelled, and what an undo leaves.
 */
module PushcardExpiry {
  import opened Wrappers
  import opened Clock
  import opened Pushcard

  /** The card is the holder's open card. */
  predicate IsOpenOf(s: Tables, h: Holder, i: int) {
    0 <= i < |s.cards| && s.cards[i].holder == h && s.cards[i].status == Open
  }

  /** The card is younger than the lifetime of cards, if they have one. */
  predicate Lives(c: Config, card: Card, now: int) {
    c.expiryDays.None? || now - card.createdAt < c.expiryDays.value * DAY
  }

  /** The holder's open card that still lives. */
  predicate IsLiveOf(c: Config, s: Tables, h: Holder, i: int, now: int) {
    IsOpenOf(s, h, i) && Lives(c, s.cards[i], now)
  }

  ghost predicate HasLive(c: Config, s: Tables, h: Holder, now: int) {
    exists i :: IsLiveOf(c, s, h, i, now)
  }

  /** A card with one more stamp, which may complete it. */
  function Filled(c: Config, card: Card, count: int, now: int): Card {
    if count >= c.slots then card.(status := Completed, updatedAt := now) else card
  }

  /** Every card stays as it was, but the holder's open card, which is cancelled once it no longer lives. */
  ghost predicate OldCardsCancelled(c: Config, s: Tables, s': Tables, h: Holder, now: int) {
    && |s.cards| <= |s'.cards|
    && forall i :: 0 <= i < |s.cards| ==>
      s'.cards[i] == if IsOpenOf(s, h, i) && !Lives(c, s.cards[i], now)
        then s.cards[i].(status := Cancelled, updatedAt := now) else s.cards[i]
  }

  lemma TheOpenCard(cards: seq<Card>, h: Holder, i: nat)
    requires OneOpenEach(cards) && i < |cards| && cards[i].holder == h && cards[i].status == Open
    ensures OpenCardOf(cards, h) == Some(i)
  {
    assert OpenCardOf(cards, h).Some?;
  }

  // ---------- what settling does ----------

  lemma SettledLive(c: Config, s: Tables, h: Holder, open: bool, i: nat, now: int)
    requires OneOpenEach(s.cards) && IsLiveOf(c, s, h, i, now)
    ensures Settle(c, s, h, open, now) == (s, Some(i))
  {
    TheOpenCard(s.cards, h, i);
  }

  lemma SettledOld(c: Config, s: Tables, h: Holder, open: bool, now: int)
    requires OneOpenEach(s.cards) && !HasLive(c, s, h, now)
    ensures var (s', card) := Settle(c, s, h, open, now);
      && OldCardsCancelled(c, s, s', h, now) && s'.stamps == s.stamps
      && card == (if open then Some(|s.cards|) else None)
      && s'.cards[|s.cards|..] == if open then [Card(h, Open, now, now)] else []
  {
    var found := OpenCardOf(s.cards, h);
    assert found.Some? ==> !IsLiveOf(c, s, h, found.value, now);
    forall i | IsOpenOf(s, h, i) ensures found == Some(i) {
      TheOpenCard(s.cards, h, i);
    }
  }

  // ---------- stamps ----------

  /** The fields are given, the program is configured, and the stamp's id is free. */
  predicate Stampable(configs: map<Id, Config>, s: Tables, op: Op)
    requires op.AddStamp?
  {
    && op.holder.program != "" && op.holder.client != "" && op.collaborator != ""
    && op.holder.program in configs && forall t <- s.stamps :: t.id != op.stampId
  }

  /**
   After any run a stamp is refused exactly when a field is missing, the program is not
   configured or its id is taken; no refusal touches a stamp. It lands on the holder's open card
   exactly when that card still lives, and changes no other; otherwise it lands on a new card,
   and an open card of the holder that no longer lives is cancelled. The card is completed
   exactly when it then holds as many stamps as slots.
   */
  lemma StampLandsExactly(configs: map<Id, Config>, run: seq<Event>, op: Op, now: int)
    requires Sane(configs) && op.AddStamp?
    ensures var s := State(configs, run);
      var (s', failure) := Step(configs, s, op, now);
      && (failure == None <==> Stampable(configs, s, op))
      && (failure != None ==> s'.stamps == s.stamps)
      && (failure == None ==> StampLands(configs[op.holder.program], s, s', op, now))
  {
    var s := State(configs, run);
    RunKeepsInvUpTo(configs, run);
    if op.holder.program in configs {
      var c := configs[op.holder.program];
      if HasLive(c, s, op.holder, now) {
        var i :| IsLiveOf(c, s, op.holder, i, now);
        SettledLive(c, s, op.holder, true, i, now);
        LandsOnLive(configs, s, op, i, now);
      } else {
        SettledOld(c, s, op.holder, true, now);
        LandsOnNew(configs, s, op, now);
      }
    }
  }

  ghost predicate StampLands(c: Config, s: Tables, s': Tables, op: Op, now: int)
    requires op.AddStamp?
  {
    if HasLive(c, s, op.holder, now) then
      exists i :: IsLiveOf(c, s, op.holder, i, now) && LandsOn(c, s, s', op, i, now)
    else
      && |s'.cards| == |s.cards| + 1
      && OldCardsCancelled(c, s, s', op.holder, now)
      && s'.cards[|s.cards|] == Filled(c, Card(op.holder, Open, now, now), 1, now)
      && s'.stamps == s.stamps + [Stamp(op.stampId, |s.cards|, op.collaborator, now)]
  }

  /** The stamp is on card `i`, and nothing else has changed. */
  ghost predicate LandsOn(c: Config, s: Tables, s': Tables, op: Op, i: nat, now: int)
    requires op.AddStamp? && i < |s.cards|
  {
    && s'.cards == s.cards[i := Filled(c, s.cards[i], CountStamps(s.stamps, i) + 1, now)]
    && s'.stamps == s.stamps + [Stamp(op.stampId, i, op.collaborator, now)]
  }

  lemma LandsOnLive(configs: map<Id, Config>, s: Tables, op: Op, i: nat, now: int)
    requires op.AddStamp? && op.holder.program in configs
    requires IsOpenOf(s, op.holder, i) && Settle(configs[op.holder.program], s, op.holder, true, now) == (s, Some(i))
    ensures var (s', failure) := Step(configs, s, op, now);
      && (failure == None <==> Stampable(configs, s, op))
      && (failure != None ==> s'.stamps == s.stamps)
      && (failure == None ==> LandsOn(configs[op.holder.program], s, s', op, i, now))
  {
    CountSnoc(s.stamps, Stamp(op.stampId, i, op.collaborator, now), i);
  }

  lemma LandsOnNew(configs: map<Id, Config>, s: Tables, op: Op, now: int)
    requires op.AddStamp? && op.holder.program in configs && StampsPlaced(s)
    requires var c := configs[op.holder.program];
      var (s1, card) := Settle(c, s, op.holder, true, now);
      && !HasLive(c, s, op.holder, now) && OldCardsCancelled(c, s, s1, op.holder, now) && s1.stamps == s.stamps
      && card == Some(|s.cards|) && s1.cards[|s.cards|..] == [Card(op.holder, Open, now, now)]
    ensures var (s', failure) := Step(configs, s, op, now);
      && (failure == None <==> Stampable(configs, s, op))
      && (failure != None ==> s'.stamps == s.stamps)
      && (failure == None ==> StampLands(configs[op.holder.program], s, s', op, now))
  {
    var c := configs[op.holder.program];
    var s1 := Settle(c, s, op.holder, true, now).0;
    assert s1.cards[|s.cards|] == s1.cards[|s.cards|..][0];
    NoStampsElsewhere(s.stamps, |s.cards|);
    CountSnoc(s.stamps, Stamp(op.stampId, |s.cards|, op.collaborator, now), |s.cards|);
  }

  // ---------- progress ----------

  /** Asking for progress changes one thing only: an open card that no longer lives is cancelled. */
  lemma ProgressExactly(configs: map<Id, Config>, run: seq<Event>, h: Holder, now: int)
    requires Sane(configs) && h.program in configs
    ensures var s := State(configs, run);
      var (s', failure) := Step(configs, s, Progress(h), now);
      && failure == None && s'.stamps == s.stamps && |s'.cards| == |s.cards|
      && OldCardsCancelled(configs[h.program], s, s', h, now)
  {
    var (s, c) := (State(configs, run), configs[h.program]);
    RunKeepsInvUpTo(configs, run);
    if HasLive(c, s, h, now) {
      var i :| IsLiveOf(c, s, h, i, now);
      SettledLive(c, s, h, false, i, now);
      forall j | IsOpenOf(s, h, j) ensures j == i {
        TheOpenCard(s.cards, h, i);
        TheOpenCard(s.cards, h, j);
      }
    } else {
      SettledOld(c, s, h, false, now);
    }
  }

  // ---------- undo ----------

  /**
   After any run an undo is refused exactly when the collaborator gave no stamp in the last two
   hours, or its card is cancelled; it then changes nothing. Otherwise that stamp goes, and a new
   card is opened exactly when its card was completed and the holder has no open card.
   */
  lemma UndoExactly(configs: map<Id, Config>, run: seq<Event>, op: Op, now: int)
    requires Sane(configs) && op.Undo?
    requires IsLastStamp(State(configs, run).stamps, op.collaborator, now, op.victim)
    ensures var s := State(configs, run);
      var (s', failure) := Step(configs, s, op, now);
      if !exists t <- s.stamps :: t.collaborator == op.collaborator && now - t.createdAt <= 7200 * SECOND then
        s' == s && failure == Some(NoStampToUndo)
      else
        && op.victim.Some? && op.victim.value < |s.stamps| && s.stamps[op.victim.value].card < |s.cards|
        && var (k, card) := (op.victim.value, s.cards[s.stamps[op.victim.value].card]);
          if card.status == Cancelled then s' == s && failure == Some(CardCancelled)
          else
            && failure == None && s'.stamps == s.stamps[..k] + s.stamps[k + 1..]
            && s'.cards == s.cards +
               if card.status == Completed && !(exists i :: IsOpenOf(s, card.holder, i))
               then [Card(card.holder, Open, now, now)] else []
  {
    var s := State(configs, run);
    RunKeepsInvUpTo(configs, run);
    if op.victim.Some? {
      var t := s.stamps[op.victim.value];
      assert t in s.stamps;
      var found := OpenCardOf(s.cards, s.cards[t.card].holder);
      assert found.Some? ==> IsOpenOf(s, s.cards[t.card].holder, found.value);
    }
  }

  // ---------- lifetimes over runs ----------

  /** A cancelled card of a program whose cards expire, at least that old when it was cancelled. */
  predicate CancelledOld(configs: map<Id, Config>, card: Card) {
    && card.holder.program in configs && configs[card.holder.program].expiryDays.Some?
    && card.updatedAt - card.createdAt >= configs[card.holder.program].expiryDays.value * DAY
  }

  /** The stamp was put on a card just opened or still alive. */
  predicate StampedInTime(configs: map<Id, Config>, s: Tables, t: Stamp) {
    && t.card < |s.cards| && s.cards[t.card].holder.program in configs
    && (t.createdAt == s.cards[t.card].createdAt
        || Lives(configs[s.cards[t.card].holder.program], s.cards[t.card], t.createdAt))
  }

  ghost predicate LifetimesHold(configs: map<Id, Config>, s: Tables) {
    && (forall i :: 0 <= i < |s.cards| && s.cards[i].status == Cancelled ==> CancelledOld(configs, s.cards[i]))
    && (forall t <- s.stamps :: StampedInTime(configs, s, t))
  }

  /**
   In any run, every cancelled card is of a program whose cards expire and had reached that age,
   and every stamp was put on a card just opened or still within its lifetime.
   */
  lemma {:induction false} RunKeepsLifetimes(configs: map<Id, Config>, run: seq<Event>)
    ensures LifetimesHold(configs, State(configs, run))
  {
    if run != [] {
      var (before, e) := (run[..|run| - 1], run[|run| - 1]);
      var s := State(configs, before);
      RunKeepsLifetimes(configs, before);
      match e.op
      case AddStamp(h, collaborator, id) =>
        if h.program in configs {
          SettleKeepsLifetimes(configs, s, h, true, e.now);
          var (s1, card) := Settle(configs[h.program], s, h, true, e.now);
          StampKeepsLifetimes(configs, s1, card.value, Stamp(id, card.value, collaborator, e.now));
        }
      case Progress(h) =>
        if h.program in configs {
          SettleKeepsLifetimes(configs, s, h, false, e.now);
        }
      case Undo(_, _) => UndoKeepsLifetimes(configs, s, e.op, e.now);
      case MarkRedeemed(card) => StatusKeepsLifetimes(configs, s, card, Completed, Redeemed, e.now);
    }
  }

  /** A card that moves between statuses, and not to an early cancellation. */
  lemma StatusKeepsLifetimes(configs: map<Id, Config>, s: Tables, card: nat, from: Status, to: Status, now: int)
    requires LifetimesHold(configs, s)
    requires to == Cancelled && card < |s.cards| ==> CancelledOld(configs, s.cards[card].(updatedAt := now))
    ensures LifetimesHold(configs, SetStatus(s, card, from, to, now))
  {
    var s' := SetStatus(s, card, from, to, now);
    forall t <- s'.stamps ensures StampedInTime(configs, s', t) {
      assert StampedInTime(configs, s, t);
    }
  }

  lemma OpenKeepsLifetimes(configs: map<Id, Config>, s: Tables, card: Card)
    requires LifetimesHold(configs, s) && card.status == Open
    ensures LifetimesHold(configs, s.(cards := s.cards + [card]))
  {
    var s' := s.(cards := s.cards + [card]);
    forall t <- s'.stamps ensures StampedInTime(configs, s', t) {
      assert StampedInTime(configs, s, t);
    }
  }

  lemma SettleKeepsLifetimes(configs: map<Id, Config>, s: Tables, h: Holder, open: bool, now: int)
    requires LifetimesHold(configs, s) && h.program in configs
    ensures var (s', card) := Settle(configs[h.program], s, h, open, now);
      && LifetimesHold(configs, s')
      && (open ==> card.Some? && StampedInTime(configs, s', Stamp("", card.value, "", now)))
  {
    var (c, card) := (configs[h.program], OpenCardOf(s.cards, h));
    var (s1, kept) := ExpireIfStale(c, s, card, now);
    if card.Some? && kept.None? {
      StatusKeepsLifetimes(configs, s, card.value, Open, Cancelled, now);
    }
    if kept.None? && open {
      OpenKeepsLifetimes(configs, s1, Card(h, Open, now, now));
    }
  }

  lemma StampKeepsLifetimes(configs: map<Id, Config>, s: Tables, card: nat, t: Stamp)
    requires LifetimesHold(configs, s) && card == t.card && t.card < |s.cards| && StampedInTime(configs, s, t)
    requires s.cards[card].holder.program in configs
    ensures LifetimesHold(configs, Stamped(configs[s.cards[card].holder.program], s, card, t).0)
  {
    if InsertStamp(s, t).Ok? {
      var s1 := s.(stamps := s.stamps + [t]);
      forall u <- s1.stamps ensures StampedInTime(configs, s1, u) {
        assert u == t || u in s.stamps;
        assert u in s.stamps ==> StampedInTime(configs, s, u);
      }
      StatusKeepsLifetimes(configs, s1, card, Open, Completed, t.createdAt);
    }
  }

  lemma UndoKeepsLifetimes(configs: map<Id, Config>, s: Tables, op: Op, now: int)
    requires LifetimesHold(configs, s) && op.Undo?
    ensures LifetimesHold(configs, Step(configs, s, op, now).0)
  {
    if op.victim.Some? && op.victim.value < |s.stamps| && s.stamps[op.victim.value].card < |s.cards| {
      var s1 := s.(stamps := DeleteAt(s.stamps, op.victim.value));
      forall t <- s1.stamps ensures StampedInTime(configs, s1, t) {
        assert t in s.stamps && StampedInTime(configs, s, t);
      }
      OpenKeepsLifetimes(configs, s1, Card(s.cards[s.stamps[op.victim.value].card].holder, Open, now, now));
    }
  }
}
