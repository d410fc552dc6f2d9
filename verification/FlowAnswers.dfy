/**
 What a flow collects over a run, in the messages' own fields: the answer stored for each step
 asked, what the photos leave, and what a message starts.
 */
module FlowAnswers {
  import opened Wrappers
  import opened Routing
  import opened FlowEngine

  // ---------- answers ----------

  /** The answer a message gives to a step: its text, or for a photo step the image as stored, or as sent. */
  predicate IsAnswer(step: Step, m: Message, v: string) {
    if !step.needsPhoto then v == m.text
    else
      && m.imageUrl != ""
      && match m.photo
        case NoProcessor => v == m.imageUrl
        case PhotoFailed => false
        case PhotoStored(url, _, _, _) => v == url
  }

  /** The message answers the step, and the step takes it. */
  ghost predicate Takes(step: Step, m: Message) {
    exists v :: IsAnswer(step, m, v) && step.accepts(v)
  }

  lemma AcceptsIffTakes(step: Step, m: Message)
    ensures Accepts(step, m) <==> Takes(step, m)
    ensures Accepts(step, m) ==> IsAnswer(step, m, AnswerOf(step, m).value.0)
  {
    if AnswerOf(step, m).Some? {
      assert IsAnswer(step, m, AnswerOf(step, m).value.0);
    }
  }

  // ---------- what is collected ----------

  /** The step is answered by this message with a photo the processor has read. */
  predicate ReadsPhoto(step: Step, m: Message) {
    step.needsPhoto && m.photo.PhotoStored?
  }

  /** The last photo read among the answers from step `from` on. */
  function LastPhoto(steps: seq<Step>, from: nat, answers: seq<Message>): Option<Photo>
    requires from + |answers| <= |steps|
  {
    if answers == [] then None
    else
      var n := |answers| - 1;
      if ReadsPhoto(steps[from + n], answers[n]) then Some(answers[n].photo) else LastPhoto(steps, from, answers[..n])
  }

  /** The last receipt read from a photo. */
  function LastReceipt(steps: seq<Step>, from: nat, answers: seq<Message>): Option<string>
    requires from + |answers| <= |steps|
  {
    if answers == [] then None
    else
      var n := |answers| - 1;
      if ReadsPhoto(steps[from + n], answers[n]) && answers[n].photo.receipt.Some? then answers[n].photo.receipt
      else LastReceipt(steps, from, answers[..n])
  }

  /** Under the step's key is what the message answered, and the step accepts it. */
  predicate StoredAt(step: Step, m: Message, data: map<string, string>) {
    step.key in data && IsAnswer(step, m, data[step.key]) && step.accepts(data[step.key])
  }

  /** Under each key asked for is what that step's message answered. */
  ghost predicate AnswersStored(steps: seq<Step>, from: nat, answers: seq<Message>, data: map<string, string>)
    requires from + |answers| <= |steps|
  {
    forall i :: 0 <= i < |answers| ==> StoredAt(steps[from + i], answers[i], data)
  }

  predicate SameAt(data: map<string, string>, data': map<string, string>, key: string) {
    (key in data <==> key in data') && (key in data ==> data[key] == data'[key])
  }

  predicate Holds(data: map<string, string>, key: string, v: string) {
    key in data && data[key] == v
  }

  /** Amount and currency are those of the last photo read, and the receipt the last one read; or as at the start. */
  predicate PhotosStored(
    steps: seq<Step>, from: nat, start: map<string, string>, answers: seq<Message>, data: map<string, string>)
    requires from + |answers| <= |steps|
  {
    var (photo, receipt) := (LastPhoto(steps, from, answers), LastReceipt(steps, from, answers));
    && (if photo.Some? && photo.value.PhotoStored? then
          Holds(data, "amount", photo.value.amount) && Holds(data, "currency", photo.value.currency)
        else SameAt(start, data, "amount") && SameAt(start, data, "currency"))
    && if receipt.Some? then Holds(data, "receipt_json", receipt.value) else SameAt(start, data, "receipt_json")
  }

  predicate AsksFor(steps: seq<Step>, from: nat, to: nat, key: string)
    requires to <= |steps|
  {
    exists i :: from <= i < to && steps[i].key == key
  }

  /** Every other key is as at the start. */
  ghost predicate RestKept(
    steps: seq<Step>, from: nat, start: map<string, string>, answers: seq<Message>, data: map<string, string>)
    requires from + |answers| <= |steps|
  {
    forall key :: key !in RESERVED && !AsksFor(steps, from, from + |answers|, key) ==> SameAt(start, data, key)
  }

  ghost predicate Collected(
    steps: seq<Step>, from: nat, start: map<string, string>, answers: seq<Message>, data: map<string, string>)
    requires from + |answers| <= |steps|
  {
    && AnswersStored(steps, from, answers, data)
    && PhotosStored(steps, from, start, answers, data)
    && RestKept(steps, from, start, answers, data)
  }

  /** An accepted message leaves every key alone but its step's and the photo's. */
  lemma AdvancedAt(fs: FlowState, step: Step, m: Message, key: string)
    requires Accepts(step, m)
    ensures var data := Advanced(fs, step, m).data;
      && (key != step.key && key !in RESERVED ==> SameAt(fs.data, data, key))
      && StoredAt(step, m, data)
  {
    AcceptsIffTakes(step, m);
  }

  lemma AdvanceStoresAnswers(steps: seq<Step>, from: nat, answers: seq<Message>, fs: FlowState, m: Message)
    requires CleanKeys(steps) && fs.step == from + |answers| < |steps| && Accepts(steps[fs.step], m)
    requires AnswersStored(steps, from, answers, fs.data)
    ensures AnswersStored(steps, from, answers + [m], Advanced(fs, steps[fs.step], m).data)
  {
    var (all, data) := (answers + [m], Advanced(fs, steps[fs.step], m).data);
    forall i | 0 <= i < |all| ensures StoredAt(steps[from + i], all[i], data) {
      AdvancedAt(fs, steps[fs.step], m, steps[from + i].key);
      if i < |answers| {
        assert StoredAt(steps[from + i], answers[i], fs.data);
      }
    }
  }

  lemma AdvanceStoresPhoto(
    steps: seq<Step>, from: nat, start: map<string, string>, answers: seq<Message>, fs: FlowState, m: Message)
    requires CleanKeys(steps) && fs.step == from + |answers| < |steps| && Accepts(steps[fs.step], m)
    requires PhotosStored(steps, from, start, answers, fs.data)
    ensures PhotosStored(steps, from, start, answers + [m], Advanced(fs, steps[fs.step], m).data)
  {
    assert (answers + [m])[..|answers|] == answers;
  }

  lemma AdvanceKeepsRest(
    steps: seq<Step>, from: nat, start: map<string, string>, answers: seq<Message>, fs: FlowState, m: Message)
    requires CleanKeys(steps) && fs.step == from + |answers| < |steps| && Accepts(steps[fs.step], m)
    requires RestKept(steps, from, start, answers, fs.data)
    ensures RestKept(steps, from, start, answers + [m], Advanced(fs, steps[fs.step], m).data)
  {
    var (n, data) := (|answers|, Advanced(fs, steps[fs.step], m).data);
    forall key | key !in RESERVED && !AsksFor(steps, from, from + n + 1, key) ensures SameAt(start, data, key) {
      assert steps[from + n].key != key && !AsksFor(steps, from, from + n, key);
      AdvancedAt(fs, steps[fs.step], m, key);
      assert SameAt(start, fs.data, key);
    }
  }

  lemma AdvanceCollects(
    steps: seq<Step>, from: nat, start: map<string, string>, answers: seq<Message>, fs: FlowState, m: Message)
    requires CleanKeys(steps) && fs.step == from + |answers| < |steps| && Accepts(steps[fs.step], m)
    requires Collected(steps, from, start, answers, fs.data)
    ensures Collected(steps, from, start, answers + [m], Advanced(fs, steps[fs.step], m).data)
  {
    AdvanceStoresAnswers(steps, from, answers, fs, m);
    AdvanceStoresPhoto(steps, from, start, answers, fs, m);
    AdvanceKeepsRest(steps, from, start, answers, fs, m);
  }

  // ---------- runs ----------

  /** The state a user's flow began with. */
  function Begun(r: Routes, run: seq<Event>, u: User): FlowState
    requires Closed(r) && Usable(r) && u in StoreAfter(r, run)
  {
    var before := run[..|run| - 1];
    if u in StoreAfter(r, before) then Begun(r, before, u) else StoreAfter(r, run)[u]
  }

  /** The step the user's flow stands at. */
  function Asked(r: Routes, fs: FlowState): Option<Step>
    requires Closed(r)
  {
    var steps := FlowOf(r, fs.flow);
    if steps.Some? && fs.step < |steps.value| then Some(steps.value[fs.step]) else None
  }

  /** The message, if it is the user's and the step asked takes it. */
  ghost function Taken(r: Routes, store: Store, e: Event, u: User): seq<Message>
    requires Closed(r) && u in store
  {
    var step := Asked(r, store[u]);
    if e.Receive? && e.user == u && step.Some? && Takes(step.value, e.message) then [e.message] else []
  }

  /** The messages the steps of a user's flow have taken since it began. */
  ghost function Answers(r: Routes, run: seq<Event>, u: User): seq<Message>
    requires Closed(r) && Usable(r) && u in StoreAfter(r, run)
  {
    var (before, e) := (run[..|run| - 1], run[|run| - 1]);
    if u !in StoreAfter(r, before) then [] else
      Answers(r, before, u) + Taken(r, StoreAfter(r, before), e, u)
  }

  /** The state is the one begun with, and every step since has its answer. */
  ghost predicate Follows(r: Routes, begun: FlowState, answers: seq<Message>, fs: FlowState)
    requires Closed(r)
  {
    var steps := FlowOf(r, fs.flow);
    && steps.Some? && fs.flow == begun.flow && fs.step == begun.step + |answers| < |steps.value|
    && (CleanKeys(steps.value) ==> Collected(steps.value, begun.step, begun.data, answers, fs.data))
  }

  /**
   Along any run a user's flow stands as many steps after its beginning as messages were taken;
   and, for clean keys, holds exactly their answers beside what it began with.
   */
  lemma {:induction false} StateHoldsAnswers(r: Routes, run: seq<Event>, u: User)
    requires Closed(r) && Usable(r) && u in StoreAfter(r, run)
    ensures Follows(r, Begun(r, run, u), Answers(r, run, u), StoreAfter(r, run)[u])
  {
    var (before, e) := (run[..|run| - 1], run[|run| - 1]);
    var store := StoreAfter(r, before);
    if u !in store {
      RunKeepsStore(r, run);
      JustBegun(r, StoreAfter(r, run), u);
    } else {
      StateHoldsAnswers(r, before, u);
      EventFollows(r, store, e, u, Begun(r, before, u), Answers(r, before, u));
    }
  }

  lemma JustBegun(r: Routes, store: Store, u: User)
    requires Closed(r) && StoreHolds(r, store) && u in store
    ensures Follows(r, store[u], [], store[u])
  {
    assert StateHolds(r, store[u]);
  }

  lemma EventFollows(r: Routes, store: Store, e: Event, u: User, begun: FlowState, answers: seq<Message>)
    requires Closed(r) && Usable(r) && u in store && Follows(r, begun, answers, store[u]) && u in After(r, store, e)
    ensures Follows(r, begun, answers + Taken(r, store, e, u), After(r, store, e)[u])
  {
    assert answers + [] == answers;
    if e.Receive? && e.user == u {
      MessageFollows(r, store, u, e.message, begun, answers);
    }
  }

  lemma MessageFollows(r: Routes, store: Store, u: User, m: Message, begun: FlowState, answers: seq<Message>)
    requires Closed(r) && Usable(r) && u in store && Follows(r, begun, answers, store[u])
    ensures var (store', sent) := Handle(r, store, u, m);
      var steps := FlowOf(r, begun.flow).value;
      if !Takes(steps[store[u].step], m) then store' == store && sent == None
      else if store[u].step + 1 < |steps| then
        sent == None && u in store' && Follows(r, begun, answers + [m], store'[u])
      else
        && u !in store' && sent.Some? && sent.value.id == begun.flow && begun.step + |answers| + 1 == |steps|
        && (CleanKeys(steps) ==> Collected(steps, begun.step, begun.data, answers + [m], sent.value.data))
  {
    var (fs, steps) := (store[u], FlowOf(r, begun.flow).value);
    AcceptsIffTakes(steps[fs.step], m);
    if Accepts(steps[fs.step], m) && CleanKeys(steps) {
      AdvanceCollects(steps, begun.step, begun.data, answers, fs, m);
    }
  }

  /**
   After any run, a message to a user in a flow is taken exactly when it answers the step asked
   with something the step accepts, and otherwise changes nothing. The last answer hands the
   flow's command to its module; for clean keys its data are exactly the answers taken since the
   flow began, what its photos read, and what it began with.
   */
  lemma DispatchCarriesAnswers(r: Routes, run: seq<Event>, u: User, m: Message)
    requires Closed(r) && Usable(r) && u in StoreAfter(r, run)
    ensures var (store, begun, answers) := (StoreAfter(r, run), Begun(r, run, u), Answers(r, run, u));
      var ((store', sent), steps) := (Handle(r, store, u, m), FlowOf(r, begun.flow));
      && steps.Some? && store[u].step < |steps.value|
      && if !Takes(steps.value[store[u].step], m) then store' == store && sent == None
         else if store[u].step + 1 < |steps.value| then sent == None && u in store'
         else
           && u !in store' && sent.Some? && sent.value.id == begun.flow
           && begun.step + |answers| + 1 == |steps.value|
           && (CleanKeys(steps.value) ==>
                Collected(steps.value, begun.step, begun.data, answers + [m], sent.value.data))
  {
    StateHoldsAnswers(r, run, u);
    MessageFollows(r, StoreAfter(r, run), u, m, Begun(r, run, u), Answers(r, run, u));
  }

  // ---------- beginnings ----------

  /** The first step the data leave open. */
  predicate IsFirstOpen(steps: seq<Step>, data: map<string, string>, k: nat) {
    k < |steps| && steps[k].key !in data && forall i :: 0 <= i < k ==> steps[i].key in data
  }

  /**
   What a user outside any flow starts with a message: a selection starts its command with the
   selected data, and any other interactive reply the command it names, with none. The flow
   begins at the first step the data leave open; without such a step the command goes out at once
   with the data as they are. Any other message starts nothing.
   */
  lemma FreshMessageStarts(r: Routes, store: Store, u: User, m: Message)
    requires Closed(r) && Usable(r) && u !in store
    ensures var (store', sent) := Handle(r, store, u, m);
      if !m.interactive then store' == store && sent == None
      else
        var selected := m.selection.Some? && m.selection.value.command != "";
        var (command, data) := if selected then (m.selection.value.command, m.selection.value.data)
          else (m.text, map[]);
        var steps := FlowOf(r, command);
        if steps.None? || forall i :: 0 <= i < |steps.value| ==> steps.value[i].key in data then
          store' == store && sent == Some(Command(command, data))
        else
          && sent == None && u in store'
          && store' == store[u := FlowState(command, store'[u].step, data)]
          && IsFirstOpen(steps.value, data, store'[u].step)
  {
    var steps := FlowOf(r, m.text);
    var nothing: map<string, string> := map[];
    assert steps.Some? ==> steps.value[0].key !in nothing;
  }
}
