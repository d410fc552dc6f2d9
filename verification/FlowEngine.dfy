/**
 The flow engine: one conversational state per user and business, moved on by one message at
 a time. Photo analysis, validators and the order a selection's prefixes are visited in are
 parameters; sending replies is left out.
 */
module FlowEngine {
  import opened Wrappers
  import opened Routing

  const RECEIPT_KEY := "receipt_json"
  const RESERVED := {"amount", "currency", RECEIPT_KEY}

  datatype User = User(phone: string, customer: string)

  datatype FlowState = FlowState(flow: string, step: nat, data: map<string, string>)

  /** What the photo processor makes of an image; `NoProcessor` when none is configured. */
  datatype Photo =
    | NoProcessor
    | PhotoFailed
    | PhotoStored(url: string, amount: string, currency: string, receipt: Option<string>)

  /** `selection` is the resolution of the text among the prefixes, if the message is a selection. */
  datatype Message = Message(interactive: bool, text: string, imageUrl: string, photo: Photo,
      selection: Option<Selection>)

  /** What a message leads to besides a reply: a command handed to its module, or nothing. */
  datatype Command = Command(id: string, data: map<string, string>)

  type Store = map<User, FlowState>

  // ---------- one step ----------

  /** The answer a step takes from the message, and what it stashes besides; none when it must be asked again. */
  function AnswerOf(step: Step, m: Message): Option<(string, map<string, string>)> {
    if !step.needsPhoto then Some((m.text, map[]))
    else if m.imageUrl == "" then None
    else
      match m.photo
      case NoProcessor => Some((m.imageUrl, map[]))
      case PhotoFailed => None
      case PhotoStored(url, amount, currency, receipt) =>
        Some((url, map["amount" := amount, "currency" := currency] +
                   if receipt.Some? then map[RECEIPT_KEY := receipt.value] else map[]))
  }

  /** Whether the step accepts the message. */
  predicate Accepts(step: Step, m: Message) {
    AnswerOf(step, m).Some? && step.accepts(AnswerOf(step, m).value.0)
  }

  /** The state after a step accepts a message. */
  function Advanced(fs: FlowState, step: Step, m: Message): FlowState
    requires AnswerOf(step, m).Some?
  {
    var (answer, stash) := AnswerOf(step, m).value;
    FlowState(fs.flow, fs.step + 1, (fs.data + stash)[step.key := answer])
  }

  /** The first step whose key the data lacks. */
  function FirstMissing(steps: seq<Step>, data: map<string, string>): (r: nat)
    ensures r <= |steps| && (forall i :: 0 <= i < r ==> steps[i].key in data) && (r < |steps| ==> steps[r].key !in data)
  {
    if steps == [] || steps[0].key !in data then 0 else 1 + FirstMissing(steps[1..], data)
  }

  // ---------- one message ----------

  /** The store after a message, and the command dispatched, if any. */
  function Handle(r: Routes, store: Store, u: User, m: Message): (Store, Option<Command>)
    requires Closed(r) && Usable(r)
  {
    if u in store then Process(r, store, u, m)
    else if !m.interactive then (store, None)
    else if m.selection.Some? && m.selection.value.command != "" then
      Begin(r, store, u, m.selection.value.command, m.selection.value.data)
    else if FlowOf(r, m.text).None? then (store, Some(Command(m.text, map[])))
    else (store[u := FlowState(m.text, 0, map[])], None)
  }

  function Process(r: Routes, store: Store, u: User, m: Message): (Store, Option<Command>)
    requires Closed(r) && u in store
  {
    var fs := store[u];
    var steps := FlowOf(r, fs.flow);
    if steps.None? then (store - {u}, None)
    else if fs.step >= |steps.value| || !Accepts(steps.value[fs.step], m) then (store, None)
    else
      var next := Advanced(fs, steps.value[fs.step], m);
      if next.step >= |steps.value| then (store - {u}, Some(Command(fs.flow, next.data))) else (store[u := next], None)
  }

  /** Start a flow with data at hand, or dispatch at once when there is no flow or nothing is missing. */
  function Begin(r: Routes, store: Store, u: User, command: string, data: map<string, string>): (Store, Option<Command>)
    requires Closed(r)
  {
    var steps := FlowOf(r, command);
    if steps.None? || FirstMissing(steps.value, data) >= |steps.value| then (store, Some(Command(command, data)))
    else (store[u := FlowState(command, FirstMissing(steps.value, data), data)], None)
  }

  /** Every flow has a step to ask. */
  ghost predicate Usable(r: Routes)
    requires Closed(r)
  {
    forall c :: FlowOf(r, c).Some? ==> FlowOf(r, c).value != []
  }

  // ---------- stored states ----------

  ghost predicate StateHolds(r: Routes, fs: FlowState)
    requires Closed(r)
  {
    var steps := FlowOf(r, fs.flow);
    && steps.Some? && fs.step < |steps.value|
    && forall i :: 0 <= i < fs.step ==> steps.value[i].key in fs.data
  }

  /** Every stored state names a flow, a step of it, and holds the keys of all earlier steps. */
  ghost predicate StoreHolds(r: Routes, store: Store)
    requires Closed(r)
  {
    forall u <- store :: StateHolds(r, store[u])
  }

  lemma HandleKeepsStore(r: Routes, store: Store, u: User, m: Message)
    requires Closed(r) && Usable(r) && StoreHolds(r, store)
    ensures StoreHolds(r, Handle(r, store, u, m).0)
  {
    if u in store {
      ProcessKeepsStore(r, store, u, m);
    } else if m.selection.Some? {
      BeginKeepsStore(r, store, u, m.selection.value.command, m.selection.value.data);
    }
  }

  lemma ProcessKeepsStore(r: Routes, store: Store, u: User, m: Message)
    requires Closed(r) && StoreHolds(r, store) && u in store
    ensures StoreHolds(r, Process(r, store, u, m).0)
  {}

  lemma BeginKeepsStore(r: Routes, store: Store, u: User, command: string, data: map<string, string>)
    requires Closed(r) && StoreHolds(r, store)
    ensures StoreHolds(r, Begin(r, store, u, command, data).0)
  {}

  /** How many steps the user still has to answer. */
  function Remaining(r: Routes, store: Store, u: User): nat
    requires Closed(r)
  {
    if u !in store || FlowOf(r, store[u].flow).None? then 0
    else var n := |FlowOf(r, store[u].flow).value|; if store[u].step <= n then n - store[u].step else 0
  }

  /**
   A message to an active flow is accepted exactly when its step accepts it: then one step
   fewer remains, and at the last one the command goes out; otherwise nothing stored changes.
   */
  lemma MessageMovesOneStep(r: Routes, store: Store, u: User, m: Message)
    requires Closed(r) && Usable(r) && StoreHolds(r, store) && u in store
    ensures var (store', sent) := Handle(r, store, u, m);
      && (forall v :: v != u ==> (v in store' <==> v in store) && (v in store ==> store'[v] == store[v]))
      && if Accepts(FlowOf(r, store[u].flow).value[store[u].step], m)
         then Remaining(r, store', u) == Remaining(r, store, u) - 1 && (sent.Some? <==> Remaining(r, store', u) == 0)
         else store' == store && sent == None
  {}

  // ---------- what a dispatch carries ----------

  /** Distinct keys, none of which a photo overwrites. */
  ghost predicate CleanKeys(steps: seq<Step>) {
    && (forall i :: 0 <= i < |steps| ==> steps[i].key !in RESERVED)
    && (forall i, j :: 0 <= i < j < |steps| ==> steps[i].key != steps[j].key)
  }

  /** The answers asked for from step `from` on were all accepted by their steps. */
  ghost predicate AcceptedFrom(steps: seq<Step>, from: nat, upto: nat, data: map<string, string>)
    requires upto <= |steps|
  {
    forall i :: from <= i < upto ==> steps[i].key in data && steps[i].accepts(data[steps[i].key])
  }

  lemma AdvanceKeepsAccepted(steps: seq<Step>, from: nat, fs: FlowState, m: Message)
    requires fs.step < |steps| && CleanKeys(steps) && AcceptedFrom(steps, from, fs.step, fs.data)
      && Accepts(steps[fs.step], m)
    ensures AcceptedFrom(steps, from, fs.step + 1, Advanced(fs, steps[fs.step], m).data)
  {
    var next := Advanced(fs, steps[fs.step], m);
    forall i | from <= i < fs.step + 1 ensures steps[i].key in next.data && steps[i].accepts(next.data[steps[i].key]) {
      if i < fs.step {
        assert next.data[steps[i].key] == fs.data[steps[i].key];
      }
    }
  }

  // ---------- runs ----------

  /** A message from a user, or the loss of a user's state (it expires, or is reset). */
  datatype Event = Receive(user: User, message: Message) | Drop(user: User)

  function After(r: Routes, store: Store, e: Event): Store
    requires Closed(r) && Usable(r)
  {
    if e.Drop? then store - {e.user} else Handle(r, store, e.user, e.message).0
  }

  function StoreAfter(r: Routes, run: seq<Event>): Store
    requires Closed(r) && Usable(r)
  {
    if run == [] then map[] else After(r, StoreAfter(r, run[..|run| - 1]), run[|run| - 1])
  }

  /** The event hands a command with a flow to its module, on behalf of `u`. */
  predicate Dispatches(r: Routes, store: Store, e: Event, u: User)
    requires Closed(r) && Usable(r)
  {
    e.Receive? && e.user == u &&
    var sent := Handle(r, store, u, e.message).1;
    sent.Some? && FlowOf(r, sent.value.id).Some?
  }

  /** The event starts a flow for `u`: it had none, and now one is stored or already complete. */
  predicate Starts(r: Routes, store: Store, e: Event, u: User)
    requires Closed(r) && Usable(r)
  {
    e.Receive? && e.user == u && u !in store && (u in After(r, store, e) || Dispatches(r, store, e, u))
  }

  function DispatchCount(r: Routes, run: seq<Event>, u: User): nat
    requires Closed(r) && Usable(r)
  {
    if run == [] then 0
    else
      var before := run[..|run| - 1];
      DispatchCount(r, before, u) + if Dispatches(r, StoreAfter(r, before), run[|run| - 1], u) then 1 else 0
  }

  function StartCount(r: Routes, run: seq<Event>, u: User): nat
    requires Closed(r) && Usable(r)
  {
    if run == [] then 0
    else
      var before := run[..|run| - 1];
      StartCount(r, before, u) + if Starts(r, StoreAfter(r, before), run[|run| - 1], u) then 1 else 0
  }

  lemma {:induction false} RunKeepsStore(r: Routes, run: seq<Event>)
    requires Closed(r) && Usable(r)
    ensures StoreHolds(r, StoreAfter(r, run))
  {
    if run != [] {
      var (before, e) := (run[..|run| - 1], run[|run| - 1]);
      RunKeepsStore(r, before);
      if e.Receive? {
        HandleKeepsStore(r, StoreAfter(r, before), e.user, e.message);
      }
    }
  }

  /** At every moment a user's dispatches, and the flow still under way, are covered by flows started. */
  lemma {:induction false} DispatchesAreStarted(r: Routes, run: seq<Event>, u: User)
    requires Closed(r) && Usable(r)
    ensures DispatchCount(r, run, u) + (if u in StoreAfter(r, run) then 1 else 0) <= StartCount(r, run, u)
  {
    if run != [] {
      var (before, e) := (run[..|run| - 1], run[|run| - 1]);
      DispatchesAreStarted(r, before, u);
      RunKeepsStore(r, before);
      if e.Receive? && e.user in StoreAfter(r, before) {
        MessageMovesOneStep(r, StoreAfter(r, before), e.user, e.message);
      }
    }
  }

  /** The step a user's current flow began at. */
  function BegunAt(r: Routes, run: seq<Event>, u: User): nat
    requires Closed(r) && Usable(r)
  {
    if run == [] then 0
    else
      var (before, e) := (run[..|run| - 1], run[|run| - 1]);
      if Starts(r, StoreAfter(r, before), e, u) && u in StoreAfter(r, run) then StoreAfter(r, run)[u].step
      else BegunAt(r, before, u)
  }

  ghost predicate AnswersAccepted(r: Routes, store: Store, u: User, from: nat)
    requires Closed(r) && u in store && StateHolds(r, store[u])
  {
    var steps := FlowOf(r, store[u].flow).value;
    CleanKeys(steps) ==> AcceptedFrom(steps, from, store[u].step, store[u].data)
  }

  lemma {:induction false} RunKeepsAccepted(r: Routes, run: seq<Event>, u: User)
    requires Closed(r) && Usable(r) && u in StoreAfter(r, run)
    ensures StateHolds(r, StoreAfter(r, run)[u]) && AnswersAccepted(r, StoreAfter(r, run), u, BegunAt(r, run, u))
  {
    RunKeepsStore(r, run);
    var (before, e) := (run[..|run| - 1], run[|run| - 1]);
    RunKeepsStore(r, before);
    if u in StoreAfter(r, before) {
      RunKeepsAccepted(r, before, u);
    }
    EventKeepsAccepted(r, StoreAfter(r, before), e, u, BegunAt(r, before, u));
  }

  lemma EventKeepsAccepted(r: Routes, store: Store, e: Event, u: User, from: nat)
    requires Closed(r) && Usable(r) && StoreHolds(r, store) && u in After(r, store, e)
      && StateHolds(r, After(r, store, e)[u])
    requires u in store ==> AnswersAccepted(r, store, u, from)
    ensures u in store ==> AnswersAccepted(r, After(r, store, e), u, from)
    ensures u !in store ==>
      Starts(r, store, e, u) && AnswersAccepted(r, After(r, store, e), u, After(r, store, e)[u].step)
  {
    if u in store && e.Receive? && e.user == u {
      MessageKeepsAccepted(r, store, u, e.message, from);
    }
  }

  lemma MessageKeepsAccepted(r: Routes, store: Store, u: User, m: Message, from: nat)
    requires Closed(r) && Usable(r) && u in store && StateHolds(r, store[u]) && AnswersAccepted(r, store, u, from)
    ensures var (store', sent) := Handle(r, store, u, m);
      var steps := FlowOf(r, store[u].flow).value;
      && (u in store' ==> StateHolds(r, store'[u]) && AnswersAccepted(r, store', u, from))
      && (sent.Some? && CleanKeys(steps) ==>
        sent.value.id == store[u].flow && AcceptedFrom(steps, from, |steps|, sent.value.data))
  {
    var steps := FlowOf(r, store[u].flow).value;
    if CleanKeys(steps) && Accepts(steps[store[u].step], m) {
      AdvanceKeepsAccepted(steps, from, store[u], m);
    }
  }

  lemma DispatchHasKeys(r: Routes, store: Store, u: User, m: Message)
    requires Closed(r) && Usable(r) && StoreHolds(r, store) && Dispatches(r, store, Receive(u, m), u)
    ensures var sent := Handle(r, store, u, m).1.value;
      var steps := FlowOf(r, sent.id).value;
      forall i :: 0 <= i < |steps| ==> steps[i].key in sent.data
  {
    if u in store {
      assert StateHolds(r, store[u]);
    }
  }

  /**
   A flow's command goes out with every step key present; and, for clean keys, every answer
   the engine asked for since the flow began was accepted by its step.
   */
  lemma DispatchIsComplete(r: Routes, run: seq<Event>, u: User, m: Message)
    requires Closed(r) && Usable(r) && Dispatches(r, StoreAfter(r, run), Receive(u, m), u)
    ensures var sent := Handle(r, StoreAfter(r, run), u, m).1.value;
      var steps := FlowOf(r, sent.id).value;
      && (forall i :: 0 <= i < |steps| ==> steps[i].key in sent.data)
      && (u in StoreAfter(r, run) && CleanKeys(steps) ==> AcceptedFrom(steps, BegunAt(r, run, u), |steps|, sent.data))
  {
    RunKeepsStore(r, run);
    DispatchHasKeys(r, StoreAfter(r, run), u, m);
    if u in StoreAfter(r, run) {
      RunKeepsAccepted(r, run, u);
      MessageKeepsAccepted(r, StoreAfter(r, run), u, m, BegunAt(r, run, u));
    }
  }

  // ---------- the engine object ----------

  class Engine {
    const registry: Registry
    var store: Store

    ghost predicate Valid()
      reads this, registry
    {
      registry.Valid() && Usable(registry.Now())
    }

    constructor (registry: Registry)
      requires registry.Valid() && Usable(registry.Now())
      ensures Valid() && this.registry == registry && store == map[]
    {
      this.registry := registry;
      store := map[];
    }

    /** `interactive`, text, image and photo are the message; its selection is resolved by the registry. */
    method HandleMessage(u: User, interactive: bool, text: string, imageUrl: string, photo: Photo)
      returns (sent: Option<Command>, ghost m: Message)
      requires Valid()
      modifies this`store
      ensures Valid()
      ensures IsResolution(registry.Now(), text, m.selection)
      ensures m == Message(interactive, text, imageUrl, photo, m.selection)
      ensures (store, sent) == Handle(registry.Now(), old(store), u, m)
    {
      var selection := registry.ResolveSelection(text);
      m := Message(interactive, text, imageUrl, photo, selection);
      if u in store {
        sent := ProcessStep(u, text, imageUrl, photo, m);
      } else if interactive {
        sent := HandleMenuSelection(u, text, selection, m);
      } else {
        sent := None;
      }
    }

    method ProcessStep(u: User, text: string, imageUrl: string, photo: Photo, ghost m: Message)
        returns (sent: Option<Command>)
      requires Valid() && u in store && m == Message(m.interactive, text, imageUrl, photo, m.selection)
      modifies this`store
      ensures (store, sent) == Process(registry.Now(), old(store), u, m)
    {
      var fs := store[u];
      var steps := registry.GetFlowDefinition(fs.flow);
      sent := None;
      if steps.None? {
        store := store - {u};
        return;
      }
      if fs.step >= |steps.value| {
        return;
      }
      var step := steps.value[fs.step];
      var read, actualInput, collected := ReadAnswer(step, fs.data, text, imageUrl, photo, m);
      if !read {
        return;
      }
      if !step.accepts(actualInput) {
        return;
      }
      collected := collected[step.key := actualInput];
      assert FlowState(fs.flow, fs.step + 1, collected) == Advanced(fs, step, m);
      if fs.step + 1 >= |steps.value| {
        store := store - {u};
        sent := Some(Command(fs.flow, collected));
      } else {
        store := store[u := FlowState(fs.flow, fs.step + 1, collected)];
      }
    }

    /** The answer in the message, and what a photo adds to the data; not read when the step must be asked again. */
    method ReadAnswer(step: Step, data: map<string, string>, text: string, imageUrl: string, photo: Photo,
        ghost m: Message)
      returns (read: bool, actualInput: string, collected: map<string, string>)
      requires m == Message(m.interactive, text, imageUrl, photo, m.selection)
      ensures read <==> AnswerOf(step, m).Some?
      ensures read <==> !step.needsPhoto || (imageUrl != "" && photo != PhotoFailed)
      ensures read && !step.needsPhoto ==> actualInput == text
      ensures read && step.needsPhoto ==> actualInput == if photo.PhotoStored? then photo.url else imageUrl
      ensures read ==> actualInput == AnswerOf(step, m).value.0 && collected == data + AnswerOf(step, m).value.1
    {
      read, actualInput, collected := true, text, data;
      if step.needsPhoto {
        if imageUrl == "" {
          return false, text, data;
        }
        match photo {
          case NoProcessor =>
            actualInput := imageUrl;
          case PhotoFailed =>
            return false, text, data;
          case PhotoStored(url, amount, currency, receipt) =>
            actualInput := url;
            collected := collected["amount" := amount]["currency" := currency];
            if receipt.Some? {
              collected := collected[RECEIPT_KEY := receipt.value];
            }
        }
      }
    }

    method HandleMenuSelection(u: User, text: string, selection: Option<Selection>, ghost m: Message)
        returns (sent: Option<Command>)
      requires Valid() && u !in store && m.interactive && m.text == text && m.selection == selection
      modifies this`store
      ensures (store, sent) == Handle(registry.Now(), old(store), u, m)
    {
      if selection.Some? && selection.value.command != "" {
        sent := StartFlowWithData(u, selection.value.command, selection.value.data);
        return;
      }
      var steps := registry.GetFlowDefinition(text);
      if steps.None? {
        return Some(Command(text, map[]));
      }
      store := store[u := FlowState(text, 0, map[])];
      sent := None;
    }

    /** Begins at the first step whose key is not in the data. */
    method StartFlowWithData(u: User, command: string, data: map<string, string>) returns (sent: Option<Command>)
      requires Valid()
      modifies this`store
      ensures (store, sent) == Begin(registry.Now(), old(store), u, command, data)
    {
      var steps := registry.GetFlowDefinition(command);
      if steps.None? {
        return Some(Command(command, data));
      }
      var startStep := 0;
      while startStep < |steps.value| && steps.value[startStep].key in data
        invariant startStep <= |steps.value| && forall i :: 0 <= i < startStep ==> steps.value[i].key in data
      {
        startStep := startStep + 1;
      }
      FirstMissingUnique(steps.value, data, startStep);
      if startStep >= |steps.value| {
        return Some(Command(command, data));
      }
      store := store[u := FlowState(command, startStep, data)];
      sent := None;
    }
  }

  lemma FirstMissingUnique(steps: seq<Step>, data: map<string, string>, k: nat)
    requires k <= |steps| && (forall i :: 0 <= i < k ==> steps[i].key in data)
      && (k < |steps| ==> steps[k].key !in data)
    ensures k == FirstMissing(steps, data)
  {}
}
