/**
 Stamp cards as values: what each service call does to the card and stamp tables, the
 invariant they keep, and the counting law. A card's id is its position in the card table.
 */
module Pushcard {
  import opened Wrappers
  import opened Clock

  type Id = string

  const CORRECTION_WINDOW := 2 * HOUR

  datatype Holder = Holder(client: Id, program: Id)

  datatype Status = Open | Completed | Redeemed | Cancelled

  /** `updatedAt` is when the card was opened or last changed its status. */
  datatype Card = Card(holder: Holder, status: Status, createdAt: int, updatedAt: int)

  datatype Stamp = Stamp(id: Id, card: nat, collaborator: Id, createdAt: int)

  datatype Config = Config(slots: int, expiryDays: Option<int>)

  /** `stamps` lists the live stamps in insertion order. */
  datatype Tables = Tables(cards: seq<Card>, stamps: seq<Stamp>)

  const EMPTY := Tables([], [])

  datatype Error = MissingField | NoConfig | DuplicateStamp | NoStampToUndo | CardCancelled | AlreadyOpen

  datatype Op =
    | AddStamp(holder: Holder, collaborator: Id, stampId: Id)
    | Progress(holder: Holder)
    | Undo(collaborator: Id, victim: Option<nat>)  // the stamp the query picked
    | MarkRedeemed(card: nat)

  // ---------- queries ----------

  function CountStamps(stamps: seq<Stamp>, card: nat): nat {
    if stamps == [] then 0
    else CountStamps(stamps[..|stamps| - 1], card) + if stamps[|stamps| - 1].card == card then 1 else 0
  }

  function OpenCardOf(cards: seq<Card>, h: Holder): (r: Option<nat>)
    ensures r.Some? ==> r.value < |cards| && cards[r.value].holder == h && cards[r.value].status == Open
    ensures r.None? ==> forall i :: 0 <= i < |cards| && cards[i].holder == h ==> cards[i].status != Open
  {
    if cards == [] then None
    else if cards[|cards| - 1].holder == h && cards[|cards| - 1].status == Open then Some(|cards| - 1)
    else OpenCardOf(cards[..|cards| - 1], h)
  }

  /** A most recent stamp of the collaborator inside the window, or none when there is none. */
  ghost predicate IsLastStamp(stamps: seq<Stamp>, collaborator: Id, now: int, victim: Option<nat>) {
    if victim.None? then
      forall i :: 0 <= i < |stamps| && stamps[i].collaborator == collaborator ==>
        stamps[i].createdAt < now - CORRECTION_WINDOW
    else
      var k := victim.value;
      && k < |stamps| && stamps[k].collaborator == collaborator && stamps[k].createdAt >= now - CORRECTION_WINDOW
      && forall i :: 0 <= i < |stamps| && stamps[i].collaborator == collaborator ==>
        stamps[i].createdAt <= stamps[k].createdAt
  }

  // ---------- repository calls ----------

  function SetStatus(s: Tables, card: nat, from: Status, to: Status, now: int): Tables {
    if card < |s.cards| && s.cards[card].status == from
    then s.(cards := s.cards[card := s.cards[card].(status := to, updatedAt := now)]) else s
  }

  /** The partial unique index allows one open card per holder. */
  function OpenCard(s: Tables, h: Holder, now: int): Result<Tables, Error> {
    if OpenCardOf(s.cards, h).Some? then Err(AlreadyOpen) else Ok(s.(cards := s.cards + [Card(h, Open, now, now)]))
  }

  function InsertStamp(s: Tables, t: Stamp): Result<Tables, Error> {
    if exists u <- s.stamps :: u.id == t.id then Err(DuplicateStamp) else Ok(s.(stamps := s.stamps + [t]))
  }

  function DeleteAt(stamps: seq<Stamp>, k: nat): seq<Stamp>
    requires k < |stamps|
  {
    stamps[..k] + stamps[k + 1..]
  }

  // ---------- service calls ----------

  /** An open card past its lifetime is cancelled and treated as absent. */
  function ExpireIfStale(c: Config, s: Tables, card: Option<nat>, now: int): (Tables, Option<nat>)
    requires card.Some? ==> card.value < |s.cards|
  {
    if card.None? || c.expiryDays.None? || now - s.cards[card.value].createdAt < c.expiryDays.value * DAY then (s, card)
    else (SetStatus(s, card.value, Open, Cancelled, now), None)
  }

  /** The tables once the holder's card is settled: stale cards cancelled, and an open card at hand if `open`. */
  function Settle(c: Config, s: Tables, h: Holder, open: bool, now: int): (Tables, Option<nat>) {
    var (s', card) := ExpireIfStale(c, s, OpenCardOf(s.cards, h), now);
    if card.None? && open then (s'.(cards := s'.cards + [Card(h, Open, now, now)]), Some(|s'.cards|)) else (s', card)
  }

  function Stamped(c: Config, s: Tables, card: nat, t: Stamp): (Tables, Option<Error>) {
    var now := t.createdAt;
    var r := InsertStamp(s, t);
    if r.Err? then (s, Some(r.error))
    else (if CountStamps(r.value.stamps, card) >= c.slots then SetStatus(r.value, card, Open, Completed, now)
      else r.value, None)
  }

  /** The calls of one operation in order; what ran before a failing call stays done. */
  function Step(configs: map<Id, Config>, s: Tables, op: Op, now: int): (Tables, Option<Error>) {
    match op
    case AddStamp(h, collaborator, id) =>
      if h.program == "" || h.client == "" || collaborator == "" then (s, Some(MissingField))
      else if h.program !in configs then (s, Some(NoConfig))
      else
        var (s', card) := Settle(configs[h.program], s, h, true, now);
        Stamped(configs[h.program], s', card.value, Stamp(id, card.value, collaborator, now))
    case Progress(h) =>
      if h.program !in configs then (s, Some(NoConfig))
      else (Settle(configs[h.program], s, h, false, now).0, None)
    case Undo(_, victim) =>
      if victim.None? || victim.value >= |s.stamps|
        || s.stamps[victim.value].card >= |s.cards| then (s, Some(NoStampToUndo))
      else
        var k := s.stamps[victim.value].card;
        var s' := s.(stamps := DeleteAt(s.stamps, victim.value));
        if s.cards[k].status == Cancelled then (s, Some(CardCancelled))
        else if s.cards[k].status == Completed then
          var r := OpenCard(s', s.cards[k].holder, now);
          (if r.Ok? then r.value else s', None)
        else (s', None)
    case MarkRedeemed(card) => (SetStatus(s, card, Completed, Redeemed, now), None)
  }

  // ---------- invariant ----------

  predicate Done(status: Status) {
    status == Completed || status == Redeemed
  }

  /** Stamps that undos took from each card after it was done. */
  type Losses = nat -> nat

  function NoLosses(): Losses {
    (k: nat) => 0
  }

  ghost predicate CardHolds(configs: map<Id, Config>, s: Tables, lost: Losses, i: nat)
    requires i < |s.cards|
  {
    var c := s.cards[i];
    && c.holder.program in configs
    && (c.status == Open ==> CountStamps(s.stamps, i) < configs[c.holder.program].slots)
    && (Done(c.status) ==> CountStamps(s.stamps, i) + lost(i) == configs[c.holder.program].slots)
    && (!Done(c.status) ==> lost(i) == 0)
  }

  ghost predicate OneOpenEach(cards: seq<Card>) {
    forall i, j :: 0 <= i < j < |cards| && cards[i].holder == cards[j].holder ==>
      cards[i].status != Open || cards[j].status != Open
  }

  ghost predicate StampsPlaced(s: Tables) {
    forall t <- s.stamps :: t.card < |s.cards|
  }

  /**
   One open card per holder, with fewer stamps than slots; on every card that is done as many as slots,
   but for those lost.
   */
  ghost predicate InvUpTo(configs: map<Id, Config>, s: Tables, lost: Losses) {
    && OneOpenEach(s.cards) && StampsPlaced(s)
    && (forall i :: 0 <= i < |s.cards| ==> CardHolds(configs, s, lost, i))
    && (forall i :: |s.cards| <= i ==> lost(i) == 0)
  }

  /** One open card per holder, with fewer stamps than slots; exactly as many on every card that is done. */
  ghost predicate Inv(configs: map<Id, Config>, s: Tables) {
    InvUpTo(configs, s, NoLosses())
  }

  ghost predicate Sane(configs: map<Id, Config>) {
    forall p <- configs :: configs[p].slots > 0
  }

  // ---------- counting stamps ----------

  lemma CountSnoc(stamps: seq<Stamp>, t: Stamp, card: nat)
    ensures CountStamps(stamps + [t], card) == CountStamps(stamps, card) + if t.card == card then 1 else 0
  {
    assert (stamps + [t])[..|stamps + [t]| - 1] == stamps;
  }

  lemma {:induction false} CountConcat(xs: seq<Stamp>, ys: seq<Stamp>, card: nat)
    ensures CountStamps(xs + ys, card) == CountStamps(xs, card) + CountStamps(ys, card)
  {
    if ys == [] {
      assert xs + ys == xs;
    } else {
      assert (xs + ys)[..|xs + ys| - 1] == xs + ys[..|ys| - 1];
      CountConcat(xs, ys[..|ys| - 1], card);
    }
  }

  lemma CountDelete(stamps: seq<Stamp>, k: nat, card: nat)
    requires k < |stamps|
    ensures CountStamps(DeleteAt(stamps, k), card) ==
      CountStamps(stamps, card) - if stamps[k].card == card then 1 else 0
  {
    assert stamps == (stamps[..k] + [stamps[k]]) + stamps[k + 1..];
    CountConcat(stamps[..k] + [stamps[k]], stamps[k + 1..], card);
    CountSnoc(stamps[..k], stamps[k], card);
    CountConcat(stamps[..k], stamps[k + 1..], card);
  }

  lemma {:induction false} NoStampsElsewhere(stamps: seq<Stamp>, card: nat)
    requires forall t <- stamps :: t.card < card
    ensures CountStamps(stamps, card) == 0
  {
    if stamps != [] {
      assert stamps[|stamps| - 1] in stamps;
      NoStampsElsewhere(stamps[..|stamps| - 1], card);
    }
  }

  // ---------- each call keeps the invariant ----------

  lemma CancelKeeps(configs: map<Id, Config>, s: Tables, lost: Losses, card: nat, now: int)
    requires InvUpTo(configs, s, lost)
    ensures InvUpTo(configs, SetStatus(s, card, Open, Cancelled, now), lost)
      && InvUpTo(configs, SetStatus(s, card, Completed, Redeemed, now), lost)
  {
    forall i | 0 <= i < |s.cards|
      ensures CardHolds(configs, SetStatus(s, card, Open, Cancelled, now), lost, i)
        && CardHolds(configs, SetStatus(s, card, Completed, Redeemed, now), lost, i)
    {
      assert CardHolds(configs, s, lost, i);
    }
  }

  lemma OpenKeeps(configs: map<Id, Config>, s: Tables, lost: Losses, h: Holder, now: int)
    requires InvUpTo(configs, s, lost) && Sane(configs) && h.program in configs
    requires forall i :: 0 <= i < |s.cards| && s.cards[i].holder == h ==> s.cards[i].status != Open
    ensures InvUpTo(configs, s.(cards := s.cards + [Card(h, Open, now, now)]), lost)
  {
    var s' := s.(cards := s.cards + [Card(h, Open, now, now)]);
    NoStampsElsewhere(s.stamps, |s.cards|);
    forall i | 0 <= i < |s'.cards| ensures CardHolds(configs, s', lost, i) {
      assert i < |s.cards| ==> CardHolds(configs, s, lost, i);
    }
  }

  lemma SettleKeeps(configs: map<Id, Config>, s: Tables, lost: Losses, h: Holder, open: bool, now: int)
    requires InvUpTo(configs, s, lost) && Sane(configs) && h.program in configs
    ensures var (s', card) := Settle(configs[h.program], s, h, open, now);
      && InvUpTo(configs, s', lost) && s'.stamps == s.stamps
      && (open ==>
          && card.Some? && card.value < |s'.cards|
          && s'.cards[card.value].holder == h && s'.cards[card.value].status == Open)
  {
    var card := OpenCardOf(s.cards, h);
    var (s', after) := ExpireIfStale(configs[h.program], s, card, now);
    if card.Some? {
      CancelKeeps(configs, s, lost, card.value, now);
    }
    if after.None? && open {
      OpenKeeps(configs, s', lost, h, now);
    }
  }

  lemma StampKeeps(configs: map<Id, Config>, s: Tables, lost: Losses, card: nat, t: Stamp)
    requires InvUpTo(configs, s, lost) && card < |s.cards| && s.cards[card].status == Open && t.card == card
    requires s.cards[card].holder.program in configs
    ensures InvUpTo(configs, Stamped(configs[s.cards[card].holder.program], s, card, t).0, lost)
  {
    var s' := Stamped(configs[s.cards[card].holder.program], s, card, t).0;
    if s'.stamps != s.stamps {
      forall i | 0 <= i < |s'.cards| ensures CardHolds(configs, s', lost, i) {
        CountSnoc(s.stamps, t, i);
        StampedCardHolds(configs, s, lost, card, t, i);
      }
    }
  }

  lemma StampedCardHolds(configs: map<Id, Config>, s: Tables, lost: Losses, card: nat, t: Stamp, i: nat)
    requires InvUpTo(configs, s, lost) && card < |s.cards| && s.cards[card].status == Open && t.card == card
      && i < |s.cards|
    requires s.cards[card].holder.program in configs && InsertStamp(s, t).Ok?
    ensures CardHolds(configs, Stamped(configs[s.cards[card].holder.program], s, card, t).0, lost, i)
  {
    var (c, s') := (configs[s.cards[card].holder.program],
      Stamped(configs[s.cards[card].holder.program], s, card, t).0);
    assert CardHolds(configs, s, lost, i);
    CountSnoc(s.stamps, t, i);
    CountSnoc(s.stamps, t, card);
    assert s'.stamps == s.stamps + [t];
    if i == card {
      FilledCardHolds(configs, s, s', lost, card);
    } else {
      SameCardHolds(configs, s, s', lost, i);
    }
  }

  lemma SameCardHolds(configs: map<Id, Config>, s: Tables, s': Tables, lost: Losses, i: nat)
    requires i < |s.cards| && i < |s'.cards| && s'.cards[i] == s.cards[i] && CardHolds(configs, s, lost, i)
    requires CountStamps(s'.stamps, i) == CountStamps(s.stamps, i)
    ensures CardHolds(configs, s', lost, i)
  {}

  lemma FilledCardHolds(configs: map<Id, Config>, s: Tables, s': Tables, lost: Losses, i: nat)
    requires i < |s.cards| && i < |s'.cards| && CardHolds(configs, s, lost, i) && s.cards[i].status == Open
    requires CountStamps(s'.stamps, i) == CountStamps(s.stamps, i) + 1 && s'.cards[i].holder == s.cards[i].holder
    requires var slots := configs[s.cards[i].holder.program].slots;
      s'.cards[i].status == if CountStamps(s'.stamps, i) >= slots then Completed else Open
    ensures CardHolds(configs, s', lost, i)
  {}

  lemma UndoOpenKeeps(configs: map<Id, Config>, s: Tables, lost: Losses, k: nat)
    requires InvUpTo(configs, s, lost) && k < |s.stamps| && s.stamps[k].card < |s.cards|
      && !Done(s.cards[s.stamps[k].card].status)
    ensures InvUpTo(configs, s.(stamps := DeleteAt(s.stamps, k)), lost)
  {
    var s' := s.(stamps := DeleteAt(s.stamps, k));
    forall i | 0 <= i < |s'.cards| ensures CardHolds(configs, s', lost, i) {
      assert CardHolds(configs, s, lost, i);
      CountDelete(s.stamps, k, i);
    }
  }

  /** The undo removes a stamp from a card that is already done. */
  ghost predicate UndoesDone(s: Tables, op: Op) {
    op.Undo? && op.victim.Some? && op.victim.value < |s.stamps| && s.stamps[op.victim.value].card < |s.cards|
    && Done(s.cards[s.stamps[op.victim.value].card].status)
  }

  /** The done card an undo takes a stamp from. */
  ghost function LosesFrom(s: Tables, op: Op): Option<nat> {
    if UndoesDone(s, op) then Some(s.stamps[op.victim.value].card) else None
  }

  function OneMoreLost(lost: Losses, card: Option<nat>): Losses {
    (k: nat) => lost(k) + if card == Some(k) then 1 else 0
  }

  lemma SameLosses(configs: map<Id, Config>, s: Tables, lost: Losses, lost': Losses)
    requires InvUpTo(configs, s, lost) && forall k :: lost(k) == lost'(k)
    ensures InvUpTo(configs, s, lost')
  {
    forall i | 0 <= i < |s.cards| ensures CardHolds(configs, s, lost', i) {
      assert CardHolds(configs, s, lost, i);
    }
  }

  lemma DeleteKeeps(configs: map<Id, Config>, s: Tables, lost: Losses, op: Op)
    requires InvUpTo(configs, s, lost) && UndoesDone(s, op)
    ensures InvUpTo(configs, s.(stamps := DeleteAt(s.stamps, op.victim.value)), OneMoreLost(lost, LosesFrom(s, op)))
  {
    var s' := s.(stamps := DeleteAt(s.stamps, op.victim.value));
    forall i | 0 <= i < |s'.cards| ensures CardHolds(configs, s', OneMoreLost(lost, LosesFrom(s, op)), i) {
      assert CardHolds(configs, s, lost, i);
      CountDelete(s.stamps, op.victim.value, i);
    }
  }

  lemma UndoDoneKeeps(configs: map<Id, Config>, s: Tables, lost: Losses, op: Op, now: int)
    requires InvUpTo(configs, s, lost) && Sane(configs) && UndoesDone(s, op)
    ensures InvUpTo(configs, Step(configs, s, op, now).0, OneMoreLost(lost, LosesFrom(s, op)))
  {
    var lost' := OneMoreLost(lost, LosesFrom(s, op));
    var k := s.stamps[op.victim.value].card;
    var s' := s.(stamps := DeleteAt(s.stamps, op.victim.value));
    assert CardHolds(configs, s, lost, k);
    DeleteKeeps(configs, s, lost, op);
    if OpenCardOf(s'.cards, s.cards[k].holder).None? {
      OpenKeeps(configs, s', lost', s.cards[k].holder, now);
    }
  }

  /** Whatever a call does, cards are full but for what undos took from them after they were done. */
  lemma StepKeepsInvUpTo(configs: map<Id, Config>, s: Tables, lost: Losses, op: Op, now: int)
    requires InvUpTo(configs, s, lost) && Sane(configs)
    ensures InvUpTo(configs, Step(configs, s, op, now).0, OneMoreLost(lost, LosesFrom(s, op)))
  {
    if UndoesDone(s, op) {
      UndoDoneKeeps(configs, s, lost, op, now);
    } else {
      StepKeepsLosses(configs, s, lost, op, now);
      SameLosses(configs, Step(configs, s, op, now).0, lost, OneMoreLost(lost, LosesFrom(s, op)));
    }
  }

  lemma StepKeepsLosses(configs: map<Id, Config>, s: Tables, lost: Losses, op: Op, now: int)
    requires InvUpTo(configs, s, lost) && Sane(configs) && !UndoesDone(s, op)
    ensures InvUpTo(configs, Step(configs, s, op, now).0, lost)
  {
    match op
    case AddStamp(h, collaborator, id) =>
      if h.program in configs {
        SettleKeeps(configs, s, lost, h, true, now);
        var (s', card) := Settle(configs[h.program], s, h, true, now);
        StampKeeps(configs, s', lost, card.value, Stamp(id, card.value, collaborator, now));
      }
    case Progress(h) =>
      if h.program in configs {
        SettleKeeps(configs, s, lost, h, false, now);
      }
    case Undo(_, victim) =>
      if victim.Some? && victim.value < |s.stamps| && s.stamps[victim.value].card < |s.cards| {
        UndoOpenKeeps(configs, s, lost, victim.value);
      }
    case MarkRedeemed(card) => CancelKeeps(configs, s, lost, card, now);
  }

  /** A call keeps the invariant exactly when it does not undo a stamp of a completed or redeemed card. */
  lemma StepKeepsInv(configs: map<Id, Config>, s: Tables, op: Op, now: int)
    requires Inv(configs, s) && Sane(configs)
    ensures Inv(configs, Step(configs, s, op, now).0) <==> !UndoesDone(s, op)
  {
    if UndoesDone(s, op) {
      UndoDoneBreaks(configs, s, op, now);
    } else {
      StepKeepsLosses(configs, s, NoLosses(), op, now);
    }
  }

  /** Undoing on a done card leaves it done with one stamp too few. */
  lemma UndoDoneBreaks(configs: map<Id, Config>, s: Tables, op: Op, now: int)
    requires Inv(configs, s) && UndoesDone(s, op)
    ensures var (s', k) := (Step(configs, s, op, now).0, s.stamps[op.victim.value].card);
      && s'.cards[..|s.cards|] == s.cards && CountStamps(s'.stamps, k) == CountStamps(s.stamps, k) - 1
      && !Inv(configs, s')
  {
    var k := s.stamps[op.victim.value].card;
    var s' := Step(configs, s, op, now).0;
    assert CardHolds(configs, s, NoLosses(), k);
    CountDelete(s.stamps, op.victim.value, k);
    assert s'.cards[..|s.cards|] == s.cards;
    assert s'.cards[k] == s.cards[k];
    assert !CardHolds(configs, s', NoLosses(), k);
  }

  lemma FirstStamp(configs: map<Id, Config>, h: Holder, collaborator: Id, now: int)
    requires h.program in configs && configs[h.program].slots == 1
    requires h.program != "" && h.client != "" && collaborator != ""
    ensures Step(configs, EMPTY, AddStamp(h, collaborator, "1"), now).0 ==
      Tables([Card(h, Completed, now, now)], [Stamp("1", 0, collaborator, now)])
  {
    var (s, t) := (Tables([Card(h, Open, now, now)], []), Stamp("1", 0, collaborator, now));
    assert EMPTY.cards + [Card(h, Open, now, now)] == s.cards;
    assert Settle(configs[h.program], EMPTY, h, true, now) == (s, Some(0));
    CountSnoc(s.stamps, t, 0);
    assert s.stamps + [t] == [t];
  }

  /** It happens: one stamp fills a card of one slot, and may be undone at once. */
  lemma UndoDoneHappens(configs: map<Id, Config>, h: Holder, collaborator: Id, now: int)
    requires h.program in configs && configs[h.program].slots == 1
    requires h.program != "" && h.client != "" && collaborator != ""
    ensures var (s, undo) := (State(configs, [Event(AddStamp(h, collaborator, "1"), now)]),
      Undo(collaborator, Some(0)));
      IsLastStamp(s.stamps, collaborator, now, undo.victim) && UndoesDone(s, undo)
  {
    var run := [Event(AddStamp(h, collaborator, "1"), now)];
    assert run[..|run| - 1] == [];
    FirstStamp(configs, h, collaborator, now);
  }

  // ---------- runs ----------

  datatype Event = Event(op: Op, now: int)

  ghost function State(configs: map<Id, Config>, run: seq<Event>): Tables {
    if run == [] then EMPTY
    else Step(configs, State(configs, run[..|run| - 1]), run[|run| - 1].op, run[|run| - 1].now).0
  }

  /** The losses of a run, card by card. */
  ghost function LossesOf(configs: map<Id, Config>, run: seq<Event>): Losses {
    if run == [] then NoLosses()
    else
      var (before, e) := (run[..|run| - 1], run[|run| - 1]);
      OneMoreLost(LossesOf(configs, before), LosesFrom(State(configs, before), e.op))
  }

  lemma {:induction false} RunKeepsInvUpTo(configs: map<Id, Config>, run: seq<Event>)
    requires Sane(configs)
    ensures InvUpTo(configs, State(configs, run), LossesOf(configs, run))
  {
    if run != [] {
      var (before, e) := (run[..|run| - 1], run[|run| - 1]);
      RunKeepsInvUpTo(configs, before);
      StepKeepsInvUpTo(configs, State(configs, before), LossesOf(configs, before), e.op, e.now);
    }
  }

  /** No undo of the run takes a stamp from a card that is done. */
  ghost predicate SparesDone(configs: map<Id, Config>, run: seq<Event>) {
    run == [] ||
    (SparesDone(configs, run[..|run| - 1]) && !UndoesDone(State(configs, run[..|run| - 1]), run[|run| - 1].op))
  }

  ghost predicate Lossless(lost: Losses) {
    forall k :: lost(k) == 0
  }

  lemma {:induction false} SparedIsLossless(configs: map<Id, Config>, run: seq<Event>)
    ensures SparesDone(configs, run) <==> Lossless(LossesOf(configs, run))
  {
    if run != [] {
      var (before, e) := (run[..|run| - 1], run[|run| - 1]);
      SparedIsLossless(configs, before);
      var card := LosesFrom(State(configs, before), e.op);
      OneMoreIsLoss(LossesOf(configs, before), card);
      assert LossesOf(configs, run) == OneMoreLost(LossesOf(configs, before), card);
    }
  }

  lemma OneMoreIsLoss(lost: Losses, card: Option<nat>)
    ensures Lossless(OneMoreLost(lost, card)) <==> card.None? && Lossless(lost)
  {
    if card.Some? {
      assert OneMoreLost(lost, card)(card.value) > 0;
    } else {
      assert forall k :: OneMoreLost(lost, card)(k) == lost(k);
    }
  }

  lemma LossBreaks(configs: map<Id, Config>, s: Tables, lost: Losses, k: nat)
    requires InvUpTo(configs, s, lost) && lost(k) > 0
    ensures !Inv(configs, s)
  {
    assert CardHolds(configs, s, lost, k);
    assert !CardHolds(configs, s, NoLosses(), k);
  }

  /**
   At the end of a run there is one open card per holder, short of its slots, and every done
   card is exactly full, if and only if no undo took a stamp from a done card.
   */
  lemma RunKeepsInvIff(configs: map<Id, Config>, run: seq<Event>)
    requires Sane(configs)
    ensures Inv(configs, State(configs, run)) <==> SparesDone(configs, run)
  {
    RunKeepsInvUpTo(configs, run);
    SparedIsLossless(configs, run);
    InvIffLossless(configs, State(configs, run), LossesOf(configs, run));
  }

  lemma InvIffLossless(configs: map<Id, Config>, s: Tables, lost: Losses)
    requires InvUpTo(configs, s, lost)
    ensures Inv(configs, s) <==> Lossless(lost)
  {
    if Lossless(lost) {
      SameLosses(configs, s, lost, NoLosses());
    } else {
      var k :| lost(k) > 0;
      LossBreaks(configs, s, lost, k);
    }
  }

  // ---------- the counting law ----------

  datatype Which = Every | Only(status: Status) {
    predicate Picks(s: Status) {
      Every? || status == s
    }
  }

  /** The stamps on those of the first `n` cards that are the holder's and of the statuses picked. */
  function StampsOn(cards: seq<Card>, stamps: seq<Stamp>, h: Holder, which: Which, n: nat): nat
    requires n <= |cards|
  {
    if n == 0 then 0
    else
      StampsOn(cards, stamps, h, which, n - 1) +
      if cards[n - 1].holder == h && which.Picks(cards[n - 1].status) then CountStamps(stamps, n - 1) else 0
  }

  function DoneCards(cards: seq<Card>, h: Holder): nat {
    if cards == [] then 0
    else
      var c := cards[|cards| - 1];
      DoneCards(cards[..|cards| - 1], h) + if c.holder == h && Done(c.status) then 1 else 0
  }

  /** All live stamps of a holder. */
  function StampsOf(s: Tables, h: Holder): nat {
    Owned(s.cards, s.stamps, h)
  }

  function Owned(cards: seq<Card>, stamps: seq<Stamp>, h: Holder): nat {
    if stamps == [] then 0
    else
      var t := stamps[|stamps| - 1];
      Owned(cards, stamps[..|stamps| - 1], h) + if t.card < |cards| && cards[t.card].holder == h then 1 else 0
  }

  lemma {:induction false} StampsOnSnoc(cards: seq<Card>, stamps: seq<Stamp>, t: Stamp, h: Holder, n: nat)
    requires n <= |cards|
    ensures StampsOn(cards, stamps + [t], h, Every, n) ==
      StampsOn(cards, stamps, h, Every, n) + if t.card < n && cards[t.card].holder == h then 1 else 0
  {
    if n > 0 {
      StampsOnSnoc(cards, stamps, t, h, n - 1);
      CountSnoc(stamps, t, n - 1);
    }
  }

  lemma {:induction false} NoStampsOn(cards: seq<Card>, h: Holder, n: nat)
    requires n <= |cards|
    ensures StampsOn(cards, [], h, Every, n) == 0
  {
    if n > 0 {
      NoStampsOn(cards, h, n - 1);
    }
  }

  /** Counting a holder's stamps one by one or card by card is the same. */
  lemma {:induction false} StampsByCard(cards: seq<Card>, stamps: seq<Stamp>, h: Holder)
    ensures Owned(cards, stamps, h) == StampsOn(cards, stamps, h, Every, |cards|)
  {
    if stamps == [] {
      NoStampsOn(cards, h, |cards|);
    } else {
      var (init, t) := (stamps[..|stamps| - 1], stamps[|stamps| - 1]);
      StampsByCard(cards, init, h);
      StampsOnSnoc(cards, init, t, h, |cards|);
      assert stamps == init + [t];
    }
  }

  /** The losses on those of the first `n` cards that are the holder's. */
  function LostOn(cards: seq<Card>, lost: Losses, h: Holder, n: nat): nat
    requires n <= |cards|
  {
    if n == 0 then 0 else LostOn(cards, lost, h, n - 1) + if cards[n - 1].holder == h then lost(n - 1) else 0
  }

  lemma {:induction false} StampsByStatus(configs: map<Id, Config>, s: Tables, lost: Losses, h: Holder, n: nat)
    requires InvUpTo(configs, s, lost) && h.program in configs && n <= |s.cards|
    ensures StampsOn(s.cards, s.stamps, h, Every, n) + LostOn(s.cards, lost, h, n) ==
      configs[h.program].slots * DoneCards(s.cards[..n], h) + StampsOn(s.cards, s.stamps, h, Only(Open), n)
          + StampsOn(s.cards, s.stamps, h, Only(Cancelled), n)
  {
    if n > 0 {
      StampsByStatus(configs, s, lost, h, n - 1);
      assert s.cards[..n][..n - 1] == s.cards[..n - 1];
      assert CardHolds(configs, s, lost, n - 1);
      OneMoreCard(configs[h.program].slots, DoneCards(s.cards[..n - 1], h));
    }
  }

  lemma OneMoreCard(slots: int, done: int)
    ensures slots * (done + 1) == slots * done + slots
  {}

  /** A holder's open stamps sit on one card, and are fewer than its slots. */
  lemma {:induction false} OpenStampsFit(configs: map<Id, Config>, s: Tables, lost: Losses, h: Holder, n: nat)
    requires InvUpTo(configs, s, lost) && Sane(configs) && h.program in configs && n <= |s.cards|
    ensures StampsOn(s.cards, s.stamps, h, Only(Open), n) < configs[h.program].slots
    ensures (forall i :: 0 <= i < n ==> s.cards[i].holder != h || s.cards[i].status != Open) ==>
      StampsOn(s.cards, s.stamps, h, Only(Open), n) == 0
  {
    if n > 0 {
      OpenStampsFit(configs, s, lost, h, n - 1);
      assert CardHolds(configs, s, lost, n - 1);
    }
  }

  /** How many undos of the run took a stamp from a done card of the holder. */
  ghost function UndoneOnDone(configs: map<Id, Config>, run: seq<Event>, h: Holder): nat {
    if run == [] then 0
    else
      var (before, e) := (run[..|run| - 1], run[|run| - 1]);
      var (s, card) := (State(configs, before), LosesFrom(State(configs, before), e.op));
      UndoneOnDone(configs, before, h) + if card.Some? && s.cards[card.value].holder == h then 1 else 0
  }

  /** The card table only grows, and cards stay with their holders. */
  ghost predicate SameHolders(cards: seq<Card>, cards': seq<Card>) {
    |cards| <= |cards'| && forall i :: 0 <= i < |cards| ==> cards'[i].holder == cards[i].holder
  }

  lemma StepSameHolders(configs: map<Id, Config>, s: Tables, op: Op, now: int)
    ensures SameHolders(s.cards, Step(configs, s, op, now).0.cards)
  {}

  lemma {:induction false} LostOnMore(cards: seq<Card>, cards': seq<Card>, lost: Losses, card: Option<nat>, h: Holder,
      n: nat)
    requires SameHolders(cards, cards') && n <= |cards'| && (card.Some? ==> card.value < |cards|)
    requires forall i :: |cards| <= i ==> lost(i) == 0
    ensures LostOn(cards', OneMoreLost(lost, card), h, n) == LostOn(cards, lost, h, if n < |cards| then n else |cards|)
      + if card.Some? && card.value < n && cards[card.value].holder == h then 1 else 0
  {
    if n > 0 {
      LostOnMore(cards, cards', lost, card, h, n - 1);
    }
  }

  lemma {:induction false} LossesAreUndone(configs: map<Id, Config>, run: seq<Event>, h: Holder)
    requires Sane(configs)
    ensures var cards := State(configs, run).cards;
      LostOn(cards, LossesOf(configs, run), h, |cards|) == UndoneOnDone(configs, run, h)
  {
    if run != [] {
      var (before, e) := (run[..|run| - 1], run[|run| - 1]);
      var (s, lost) := (State(configs, before), LossesOf(configs, before));
      LossesAreUndone(configs, before, h);
      RunKeepsInvUpTo(configs, before);
      StepSameHolders(configs, s, e.op, e.now);
      var cards' := State(configs, run).cards;
      LostOnMore(s.cards, cards', lost, LosesFrom(s, e.op), h, |cards'|);
    }
  }

  /**
   In any run, a holder's stamps and those undone on done cards are its slots for every card
   done, the open ones, and those on cancelled cards.
   */
  lemma CountingLaw(configs: map<Id, Config>, run: seq<Event>, h: Holder)
    requires Sane(configs) && h.program in configs
    ensures var s := State(configs, run);
      && StampsOf(s, h) + UndoneOnDone(configs, run, h) == configs[h.program].slots * DoneCards(s.cards, h)
         + StampsOn(s.cards, s.stamps, h, Only(Open), |s.cards|)
             + StampsOn(s.cards, s.stamps, h, Only(Cancelled), |s.cards|)
      && StampsOn(s.cards, s.stamps, h, Only(Open), |s.cards|) < configs[h.program].slots
  {
    var (s, lost) := (State(configs, run), LossesOf(configs, run));
    RunKeepsInvUpTo(configs, run);
    LossesAreUndone(configs, run, h);
    StampsByCard(s.cards, s.stamps, h);
    StampsByStatus(configs, s, lost, h, |s.cards|);
    OpenStampsFit(configs, s, lost, h, |s.cards|);
    assert s.cards[..|s.cards|] == s.cards;
  }

  // ---------- n stamps ----------

  /** The stamps successfully added for a holder. */
  ghost function Added(configs: map<Id, Config>, run: seq<Event>, h: Holder): nat {
    if run == [] then 0
    else
      var (before, e) := (run[..|run| - 1], run[|run| - 1]);
      Added(configs, before, h) +
      if e.op.AddStamp? && e.op.holder == h
        && Step(configs, State(configs, before), e.op, e.now).1 == None then 1 else 0
  }

  ghost predicate NoUndo(run: seq<Event>) {
    forall e <- run :: !e.op.Undo?
  }

  ghost predicate NeverCancelled(cards: seq<Card>, h: Holder) {
    forall i :: 0 <= i < |cards| && cards[i].holder == h ==> cards[i].status != Cancelled
  }

  lemma {:induction false} OwnedFrame(cards: seq<Card>, cards': seq<Card>, stamps: seq<Stamp>, h: Holder)
    requires SameHolders(cards, cards') && forall t <- stamps :: t.card < |cards|
    ensures Owned(cards', stamps, h) == Owned(cards, stamps, h)
  {
    if stamps != [] {
      assert stamps[|stamps| - 1] in stamps;
      OwnedFrame(cards, cards', stamps[..|stamps| - 1], h);
    }
  }

  lemma SettleSteps(configs: map<Id, Config>, s: Tables, g: Holder, open: bool, now: int, h: Holder)
    requires g.program in configs
    ensures var s' := Settle(configs[g.program], s, g, open, now).0;
      && s'.stamps == s.stamps && SameHolders(s.cards, s'.cards)
      && (NeverCancelled(s.cards, h) && (g == h ==> configs[g.program].expiryDays.None?) ==>
        NeverCancelled(s'.cards, h))
  {}

  lemma OwnedSnoc(cards: seq<Card>, stamps: seq<Stamp>, t: Stamp, h: Holder)
    ensures Owned(cards, stamps + [t], h) == Owned(cards, stamps, h) + if t.card < |cards|
      && cards[t.card].holder == h then 1 else 0
  {
    assert (stamps + [t])[..|stamps + [t]| - 1] == stamps;
  }

  /** A call other than an undo adds one stamp to its holder if it is a successful AddStamp, and none otherwise. */
  lemma StepAdds(configs: map<Id, Config>, s: Tables, op: Op, now: int, h: Holder)
    requires Inv(configs, s) && Sane(configs) && !op.Undo? && NeverCancelled(s.cards, h)
    requires h.program in configs && configs[h.program].expiryDays.None?
    ensures var (s', failure) := Step(configs, s, op, now);
      && StampsOf(s', h) == StampsOf(s, h) + (if op.AddStamp? && op.holder == h && failure == None then 1 else 0)
      && NeverCancelled(s'.cards, h)
  {
    match op
    case AddStamp(g, collaborator, id) =>
      if g.program in configs {
        AddStampAdds(configs, s, op, now, h);
      }
    case Progress(g) =>
      if g.program in configs {
        SettleSteps(configs, s, g, false, now, h);
        OwnedFrame(s.cards, Settle(configs[g.program], s, g, false, now).0.cards, s.stamps, h);
      }
    case MarkRedeemed(card) =>
      OwnedFrame(s.cards, SetStatus(s, card, Completed, Redeemed, now).cards, s.stamps, h);
  }

  lemma AddStampAdds(configs: map<Id, Config>, s: Tables, op: Op, now: int, h: Holder)
    requires Inv(configs, s) && Sane(configs) && op.AddStamp? && op.holder.program in configs
      && NeverCancelled(s.cards, h)
    requires h.program in configs && configs[h.program].expiryDays.None?
    ensures var (s', failure) := Step(configs, s, op, now);
      && StampsOf(s', h) == StampsOf(s, h) + (if op.holder == h && failure == None then 1 else 0)
      && NeverCancelled(s'.cards, h)
  {
    var g := op.holder;
    var (s1, card) := Settle(configs[g.program], s, g, true, now);
    SettleKeeps(configs, s, NoLosses(), g, true, now);
    SettleSteps(configs, s, g, true, now, h);
    OwnedFrame(s.cards, s1.cards, s.stamps, h);
    var t := Stamp(op.stampId, card.value, op.collaborator, now);
    OwnedSnoc(s1.cards, s1.stamps, t, h);
    OwnedFrame(s1.cards, Stamped(configs[g.program], s1, card.value, t).0.cards, s1.stamps + [t], h);
  }

  lemma {:induction false} RunAdds(configs: map<Id, Config>, run: seq<Event>, h: Holder)
    requires Sane(configs) && NoUndo(run) && h.program in configs && configs[h.program].expiryDays.None?
    ensures var s := State(configs, run);
      Inv(configs, s) && StampsOf(s, h) == Added(configs, run, h) && NeverCancelled(s.cards, h)
  {
    if run != [] {
      var (before, e) := (run[..|run| - 1], run[|run| - 1]);
      assert e in run;
      RunAdds(configs, before, h);
      StepKeepsInv(configs, State(configs, before), e.op, e.now);
      StepAdds(configs, State(configs, before), e.op, e.now, h);
    }
  }

  lemma {:induction false} NoneCancelledNoStamps(cards: seq<Card>, stamps: seq<Stamp>, h: Holder, n: nat)
    requires n <= |cards| && NeverCancelled(cards, h)
    ensures StampsOn(cards, stamps, h, Only(Cancelled), n) == 0
  {
    if n > 0 {
      NoneCancelledNoStamps(cards, stamps, h, n - 1);
    }
  }

  lemma {:induction false} NothingLost(cards: seq<Card>, h: Holder, n: nat)
    requires n <= |cards|
    ensures LostOn(cards, NoLosses(), h, n) == 0
  {
    if n > 0 {
      NothingLost(cards, h, n - 1);
    }
  }

  /** Without expiry and undo, n stamps make n div S cards and leave n mod S on the open one, whatever else happens. */
  lemma StampsDivideIntoCards(configs: map<Id, Config>, run: seq<Event>, h: Holder)
    requires Sane(configs) && NoUndo(run) && h.program in configs && configs[h.program].expiryDays.None?
    ensures var (s, n, slots) := (State(configs, run), Added(configs, run, h), configs[h.program].slots);
      slots > 0 && DoneCards(s.cards, h) == n / slots
          && StampsOn(s.cards, s.stamps, h, Only(Open), |s.cards|) == n % slots
  {
    var s := State(configs, run);
    RunAdds(configs, run, h);
    StampsByCard(s.cards, s.stamps, h);
    StampsByStatus(configs, s, NoLosses(), h, |s.cards|);
    NothingLost(s.cards, h, |s.cards|);
    OpenStampsFit(configs, s, NoLosses(), h, |s.cards|);
    NoneCancelledNoStamps(s.cards, s.stamps, h, |s.cards|);
    assert s.cards[..|s.cards|] == s.cards;
    DivModUnique(Added(configs, run, h), configs[h.program].slots, DoneCards(s.cards, h),
                 StampsOn(s.cards, s.stamps, h, Only(Open), |s.cards|));
  }

  lemma {:induction false} MoreCards(slots: nat, few: nat, many: nat)
    requires few <= many
    ensures slots * few <= slots * many
  {
    if few < many {
      MoreCards(slots, few, many - 1);
      OneMoreCard(slots, many - 1);
    }
  }

  lemma DivModUnique(n: nat, d: int, q: nat, r: nat)
    requires d > 0 && r < d && n == d * q + r
    ensures n / d == q && n % d == r
  {
    var e := n / d;
    assert n == d * e + n % d;
    if q > e {
      MoreCards(d, e + 1, q);
      OneMoreCard(d, e);
    } else if q < e {
      MoreCards(d, q + 1, e);
      OneMoreCard(d, q);
    }
  }
}
