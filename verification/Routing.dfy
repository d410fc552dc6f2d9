/** The module registry: command routing, flow lookup and prefixed selections. */
module Routing {
  import opened Wrappers

  /** A step stores an accepted answer under its key; a step without a validator accepts everything. */
  datatype Step = Step(key: string, needsPhoto: bool, accepts: string -> bool)

  /** `selection` gives the flow command and data key of a prefix. */
  datatype Module = Module(
    name: string, menus: seq<string>, flows: map<string, seq<Step>>, prefixes: seq<string>,
    selection: string -> (string, string))

  datatype Routes = Routes(modules: map<string, Module>, commands: map<string, string>, prefixes: map<string, string>)

  const NO_ROUTES := Routes(map[], map[], map[])

  predicate Owns(m: Module, command: string) {
    command in m.menus || command in m.flows
  }

  /** Every key leads to one name. */
  function Index(keys: set<string>, name: string): map<string, string> {
    map k | k in keys :: name
  }

  function SetOf(xs: seq<string>): set<string> {
    set x | x in xs
  }

  lemma IndexSnoc(table: map<string, string>, keys: seq<string>, k: string, name: string)
    ensures table + Index(SetOf(keys + [k]), name) == (table + Index(SetOf(keys), name))[k := name]
  {
    assert SetOf(keys + [k]) == SetOf(keys) + {k};
  }

  function Registered(r: Routes, m: Module): Routes {
    Routes(r.modules[m.name := m],
           r.commands + Index(SetOf(m.menus), m.name) + Index(m.flows.Keys, m.name),
           r.prefixes + Index(SetOf(m.prefixes), m.name))
  }

  function RegisterAll(ms: seq<Module>): Routes {
    if ms == [] then NO_ROUTES else Registered(RegisterAll(ms[..|ms| - 1]), ms[|ms| - 1])
  }

  /** Every index entry names a registered module. */
  ghost predicate Closed(r: Routes) {
    && (forall c <- r.commands :: r.commands[c] in r.modules)
    && (forall p <- r.prefixes :: r.prefixes[p] in r.modules)
  }

  function FlowOf(r: Routes, command: string): Option<seq<Step>>
    requires Closed(r)
  {
    if command !in r.commands then None
    else
      var flows := r.modules[r.commands[command]].flows;
      if command in flows then Some(flows[command]) else None
  }

  /** The module a command is dispatched to. */
  function TargetOf(r: Routes, command: string): Option<Module>
    requires Closed(r)
  {
    if command in r.commands then Some(r.modules[r.commands[command]]) else None
  }

  // ---------- selections ----------

  datatype Selection = Selection(command: string, data: map<string, string>)

  function Resolved(r: Routes, prefix: string, id: string): Selection
    requires Closed(r) && prefix in r.prefixes
  {
    var (command, key) := r.modules[r.prefixes[prefix]].selection(prefix);
    Selection(command, map[key := id])
  }

  /** What some order of visiting the prefixes answers. */
  ghost predicate IsResolution(r: Routes, text: string, answer: Option<Selection>)
    requires Closed(r)
  {
    if answer.None? then forall p <- r.prefixes :: !(p <= text)
    else exists p <- r.prefixes :: p <= text && answer.value == Resolved(r, p, text[|p|..])
  }

  ghost predicate PrefixFree(prefixes: set<string>) {
    forall p, q :: p in prefixes && q in prefixes && p <= q ==> p == q
  }

  lemma ShorterIsPrefix(p: string, q: string, text: string)
    requires p <= text && q <= text && |p| <= |q|
    ensures p <= q
  {
    assert p == text[..|p|] == q[..|p|];
  }

  lemma OneMatch(prefixes: set<string>, p: string, q: string, text: string)
    requires PrefixFree(prefixes) && p in prefixes && q in prefixes && p <= text && q <= text
    ensures p == q
  {
    if |p| <= |q| {
      ShorterIsPrefix(p, q, text);
    } else {
      ShorterIsPrefix(q, p, text);
    }
  }

  /** Selections do not depend on the order of the prefixes exactly when no prefix extends another. */
  lemma OrderFreeIffPrefixFree(r: Routes)
    requires Closed(r)
    ensures PrefixFree(r.prefixes.Keys) <==>
      forall text, a, b :: IsResolution(r, text, a) && IsResolution(r, text, b) ==> a == b
  {
    if PrefixFree(r.prefixes.Keys) {
      forall text, a, b | IsResolution(r, text, a) && IsResolution(r, text, b) ensures a == b {
        if a.Some? && b.Some? {
          var p :| p in r.prefixes && p <= text && a.value == Resolved(r, p, text[|p|..]);
          var q :| q in r.prefixes && q <= text && b.value == Resolved(r, q, text[|q|..]);
          OneMatch(r.prefixes.Keys, p, q, text);
        }
      }
    } else {
      var p, q :| p in r.prefixes && q in r.prefixes && p <= q && p != q;
      var a, b := Resolved(r, p, q[|p|..]), Resolved(r, q, q[|q|..]);
      assert IsResolution(r, q, Some(a)) && IsResolution(r, q, Some(b));
      var (x, y) := (r.modules[r.prefixes[p]].selection(p).1, r.modules[r.prefixes[q]].selection(q).1);
      assert x in a.data && a.data[x] == q[|p|..] != [];
      assert b.data == map[y := []];
    }
  }

  /** A prefixed selection comes back as the owning module's command with exactly the id behind the prefix. */
  lemma SelectionRoundTrip(r: Routes, prefix: string, id: string, answer: Option<Selection>)
    requires Closed(r) && PrefixFree(r.prefixes.Keys) && prefix in r.prefixes
    requires IsResolution(r, prefix + id, answer)
    ensures answer == Some(Resolved(r, prefix, id))
  {
    assert prefix <= prefix + id && (prefix + id)[|prefix|..] == id;
    assert IsResolution(r, prefix + id, Some(Resolved(r, prefix, id)));
    OrderFreeIffPrefixFree(r);
  }

  // ---------- registration order ----------

  /** No two of the modules claim the same key. */
  ghost predicate Exclusive(ms: seq<Module>, claims: (Module, string) -> bool) {
    forall m, n, k :: m in ms && n in ms && claims(m, k) && claims(n, k) ==> m == n
  }

  /** The table holds exactly the claimed keys, each with its claimant's value. */
  ghost predicate Tabulates<V>(t: map<string, V>, ms: seq<Module>, claims: (Module, string) -> bool,
      value: Module -> V) {
    && (forall k <- t :: exists m <- ms :: claims(m, k))
    && (forall m, k :: m in ms && claims(m, k) ==> k in t && t[k] == value(m))
  }

  lemma TabulatesOnce<V>(t: map<string, V>, u: map<string, V>, ms: seq<Module>, ns: seq<Module>,
                         claims: (Module, string) -> bool, value: Module -> V)
    requires Tabulates(t, ms, claims, value) && Tabulates(u, ns, claims, value)
    requires forall m :: m in ms <==> m in ns
    ensures t == u
  {
    forall k ensures k in t <==> k in u {
      if k in t {
        var m :| m in ms && claims(m, k);
        assert m in ns;
      }
      if k in u {
        var m :| m in ns && claims(m, k);
        assert m in ms;
      }
    }
    forall k <- t ensures t[k] == u[k] {
      var m :| m in ms && claims(m, k);
      assert m in ns;
    }
  }

  lemma TabulatesSnoc<V>(t: map<string, V>, t': map<string, V>, ms: seq<Module>, m: Module,
                         claims: (Module, string) -> bool, value: Module -> V)
    requires Tabulates(t, ms, claims, value) && Exclusive(ms + [m], claims)
    requires forall k :: k in t' <==> k in t || claims(m, k)
    requires forall k <- t' :: t'[k] == if claims(m, k) then value(m) else t[k]
    ensures Tabulates(t', ms + [m], claims, value)
  {
    forall k <- t' ensures exists n <- ms + [m] :: claims(n, k) {
      if claims(m, k) {
        assert m in ms + [m];
      } else {
        var n :| n in ms && claims(n, k);
        assert n in ms + [m];
      }
    }
    forall n, k | n in ms + [m] && claims(n, k) ensures k in t' && t'[k] == value(n) {
      assert n in ms || n == m;
      assert m in ms + [m];
    }
  }

  function Named(): (Module, string) -> bool {
    (m: Module, x: string) => m.name == x
  }

  function Commanding(): (Module, string) -> bool {
    (m: Module, c: string) => Owns(m, c)
  }

  function Prefixing(): (Module, string) -> bool {
    (m: Module, p: string) => p in m.prefixes
  }

  function NameOf(): Module -> string {
    (m: Module) => m.name
  }

  function Itself(): Module -> Module {
    (m: Module) => m
  }

  /** Distinct names, and no command or prefix in two modules. */
  ghost predicate Disjoint(ms: seq<Module>) {
    Exclusive(ms, Named()) && Exclusive(ms, Commanding()) && Exclusive(ms, Prefixing())
  }

  lemma ExclusivePrefix(ms: seq<Module>, m: Module, claims: (Module, string) -> bool)
    requires Exclusive(ms + [m], claims)
    ensures Exclusive(ms, claims)
  {
    forall n | n in ms ensures n in ms + [m] {}
  }

  lemma {:induction false} ModulesTabulate(ms: seq<Module>)
    requires Exclusive(ms, Named())
    ensures Tabulates(RegisterAll(ms).modules, ms, Named(), Itself())
  {
    if ms != [] {
      var (init, m) := (ms[..|ms| - 1], ms[|ms| - 1]);
      assert ms == init + [m];
      ExclusivePrefix(init, m, Named());
      ModulesTabulate(init);
      TabulatesSnoc(RegisterAll(init).modules, RegisterAll(ms).modules, init, m, Named(), Itself());
    }
  }

  lemma {:induction false} CommandsTabulate(ms: seq<Module>)
    requires Exclusive(ms, Commanding())
    ensures Tabulates(RegisterAll(ms).commands, ms, Commanding(), NameOf())
  {
    if ms != [] {
      var (init, m) := (ms[..|ms| - 1], ms[|ms| - 1]);
      assert ms == init + [m];
      ExclusivePrefix(init, m, Commanding());
      CommandsTabulate(init);
      TabulatesSnoc(RegisterAll(init).commands, RegisterAll(ms).commands, init, m, Commanding(), NameOf());
    }
  }

  lemma {:induction false} PrefixesTabulate(ms: seq<Module>)
    requires Exclusive(ms, Prefixing())
    ensures Tabulates(RegisterAll(ms).prefixes, ms, Prefixing(), NameOf())
  {
    if ms != [] {
      var (init, m) := (ms[..|ms| - 1], ms[|ms| - 1]);
      assert ms == init + [m];
      ExclusivePrefix(init, m, Prefixing());
      PrefixesTabulate(init);
      TabulatesSnoc(RegisterAll(init).prefixes, RegisterAll(ms).prefixes, init, m, Prefixing(), NameOf());
    }
  }

  lemma SameMembers(ms: seq<Module>, ns: seq<Module>, claims: (Module, string) -> bool)
    requires Exclusive(ms, claims) && forall m :: m in ms <==> m in ns
    ensures Exclusive(ns, claims)
  {
    forall m, n, k | m in ns && n in ns && claims(m, k) && claims(n, k) ensures m == n {
      assert m in ms && n in ms;
    }
  }

  /** With disjoint modules, the order they are registered in does not matter. */
  lemma RegistrationOrderFree(ms: seq<Module>, ns: seq<Module>)
    requires Disjoint(ms) && forall m :: m in ms <==> m in ns
    ensures RegisterAll(ms) == RegisterAll(ns)
  {
    var (r, s) := (RegisterAll(ms), RegisterAll(ns));
    CommandTablesAgree(ms, ns);
    SameMembers(ms, ns, Prefixing());
    PrefixesTabulate(ms);
    PrefixesTabulate(ns);
    TabulatesOnce(r.prefixes, s.prefixes, ms, ns, Prefixing(), NameOf());
  }

  lemma CommandTablesAgree(ms: seq<Module>, ns: seq<Module>)
    requires Exclusive(ms, Named()) && Exclusive(ms, Commanding()) && forall m :: m in ms <==> m in ns
    ensures RegisterAll(ms).modules == RegisterAll(ns).modules && RegisterAll(ms).commands == RegisterAll(ns).commands
  {
    var (r, s) := (RegisterAll(ms), RegisterAll(ns));
    SameMembers(ms, ns, Named());
    SameMembers(ms, ns, Commanding());
    ModulesTabulate(ms);
    ModulesTabulate(ns);
    TabulatesOnce(r.modules, s.modules, ms, ns, Named(), Itself());
    CommandsTabulate(ms);
    CommandsTabulate(ns);
    TabulatesOnce(r.commands, s.commands, ms, ns, Commanding(), NameOf());
  }

  /** Dispatch needs only names and commands to be disjoint: prefixes may be shared. */
  lemma DispatchOrderFree(ms: seq<Module>, ns: seq<Module>, command: string)
    requires Exclusive(ms, Named()) && Exclusive(ms, Commanding()) && forall m :: m in ms <==> m in ns
    ensures Closed(RegisterAll(ms)) && Closed(RegisterAll(ns))
    ensures TargetOf(RegisterAll(ms), command) == TargetOf(RegisterAll(ns), command)
  {
    CommandTablesAgree(ms, ns);
    RegisterAllClosed(ms);
    RegisterAllClosed(ns);
  }

  lemma OwnedCommand(ms: seq<Module>, command: string, m: Module)
    requires Exclusive(ms, Named()) && Exclusive(ms, Commanding()) && m in ms && Owns(m, command)
    ensures var r := RegisterAll(ms);
      command in r.commands && r.commands[command] == m.name && m.name in r.modules && r.modules[m.name] == m
  {
    ModulesTabulate(ms);
    CommandsTabulate(ms);
    assert Named()(m, m.name) && Commanding()(m, command);
  }

  lemma KnownCommand(ms: seq<Module>, command: string) returns (m: Module)
    requires Exclusive(ms, Commanding()) && command in RegisterAll(ms).commands
    ensures m in ms && Owns(m, command)
  {
    CommandsTabulate(ms);
    m :| m in ms && Commanding()(m, command);
  }

  /** A command is dispatched to the module that owns it, if one does. */
  lemma CommandGoesToItsOwner(ms: seq<Module>, command: string)
    requires Exclusive(ms, Named()) && Exclusive(ms, Commanding())
    ensures Closed(RegisterAll(ms))
    ensures forall m <- ms :: Owns(m, command) ==> TargetOf(RegisterAll(ms), command) == Some(m)
    ensures TargetOf(RegisterAll(ms), command).None? ==> forall m <- ms :: !Owns(m, command)
    ensures TargetOf(RegisterAll(ms), command).Some? ==>
      TargetOf(RegisterAll(ms), command).value in ms && Owns(TargetOf(RegisterAll(ms), command).value, command)
  {
    RegisterAllClosed(ms);
    forall m <- ms | Owns(m, command) ensures TargetOf(RegisterAll(ms), command) == Some(m) {
      OwnedCommand(ms, command, m);
    }
    if command in RegisterAll(ms).commands {
      var m := KnownCommand(ms, command);
    }
  }

  /** A command starts a flow exactly when some module defines one for it, and it is that module's. */
  lemma FlowIsItsOwners(ms: seq<Module>, command: string, flow: seq<Step>)
    requires Exclusive(ms, Named()) && Exclusive(ms, Commanding())
    ensures Closed(RegisterAll(ms))
    ensures FlowOf(RegisterAll(ms), command) == Some(flow) <==>
      exists m <- ms :: command in m.flows && m.flows[command] == flow
  {
    RegisterAllClosed(ms);
    if m :| m in ms && command in m.flows && m.flows[command] == flow {
      OwnedCommand(ms, command, m);
    }
    if FlowOf(RegisterAll(ms), command) == Some(flow) {
      var m := KnownCommand(ms, command);
      OwnedCommand(ms, command, m);
      assert m in ms && command in m.flows && m.flows[command] == flow;
    }
  }

  /** With disjoint modules, a prefix and an id come back as the command of the module that registered the prefix. */
  lemma SelectionGoesToItsOwner(ms: seq<Module>, m: Module, prefix: string, id: string, answer: Option<Selection>)
    requires Disjoint(ms) && m in ms && prefix in m.prefixes
    requires Closed(RegisterAll(ms)) && PrefixFree(RegisterAll(ms).prefixes.Keys)
    requires IsResolution(RegisterAll(ms), prefix + id, answer)
    ensures var (command, key) := m.selection(prefix); answer == Some(Selection(command, map[key := id]))
  {
    var r := RegisterAll(ms);
    ModulesTabulate(ms);
    PrefixesTabulate(ms);
    assert Prefixing()(m, prefix) && Named()(m, m.name);
    SelectionRoundTrip(r, prefix, id, answer);
  }

  lemma RegisteredClosed(r: Routes, m: Module)
    requires Closed(r)
    ensures Closed(Registered(r, m))
  {}

  lemma {:induction false} RegisterAllClosed(ms: seq<Module>)
    ensures Closed(RegisterAll(ms))
  {
    if ms != [] {
      RegisterAllClosed(ms[..|ms| - 1]);
      RegisteredClosed(RegisterAll(ms[..|ms| - 1]), ms[|ms| - 1]);
    }
  }

  // ---------- the registry object ----------

  class Registry {
    var modules: map<string, Module>
    var commands: map<string, string>
    var prefixes: map<string, string>

    ghost function Now(): Routes
      reads this
    {
      Routes(modules, commands, prefixes)
    }

    ghost predicate Valid()
      reads this
    {
      Closed(Now())
    }

    constructor ()
      ensures Valid() && Now() == NO_ROUTES
    {
      modules, commands, prefixes := map[], map[], map[];
    }

    method Register(m: Module)
      requires Valid()
      modifies this
      ensures Valid() && Now() == Registered(old(Now()), m)
    {
      RegisteredClosed(Now(), m);
      modules := modules[m.name := m];
      commands := IndexAll(commands, m.menus, m.name);
      commands := IndexSet(commands, m.flows.Keys, m.name);
      prefixes := IndexAll(prefixes, m.prefixes, m.name);
    }

    /** As IndexAll, in the order the keys of a map happen to be visited. */
    static method IndexSet(table: map<string, string>, keys: set<string>, name: string) returns (r: map<string, string>)
      ensures r == table + Index(keys, name)
    {
      r := table;
      var todo := keys;
      while todo != {}
        invariant todo <= keys && r == table + Index(keys - todo, name)
      {
        var k :| k in todo;
        todo := todo - {k};
        r := r[k := name];
      }
    }

    static method IndexAll(table: map<string, string>, keys: seq<string>, name: string) returns (r: map<string, string>)
      ensures r == table + Index(SetOf(keys), name)
    {
      r := table;
      for i := 0 to |keys|
        invariant r == table + Index(SetOf(keys[..i]), name)
      {
        IndexSnoc(table, keys[..i], keys[i], name);
        assert keys[..i + 1] == keys[..i] + [keys[i]];
        r := r[keys[i] := name];
      }
      assert keys[..|keys|] == keys;
    }

    method GetFlowDefinition(command: string) returns (flow: Option<seq<Step>>)
      requires Valid()
      ensures flow == FlowOf(Now(), command)
    {
      if command !in commands {
        return None;
      }
      var flows := modules[commands[command]].flows;
      flow := if command in flows then Some(flows[command]) else None;
    }

    /** Visits the prefixes in no particular order and answers with the first that matches. */
    method ResolveSelection(text: string) returns (answer: Option<Selection>)
      requires Valid()
      ensures IsResolution(Now(), text, answer)
    {
      var todo := prefixes.Keys;
      while todo != {}
        invariant todo <= prefixes.Keys
        invariant forall p <- prefixes :: p in todo || !(p <= text)
      {
        var p :| p in todo;
        todo := todo - {p};
        if p <= text {
          var (command, key) := modules[prefixes[p]].selection(p);
          return Some(Selection(command, map[key := text[|p|..]]));
        }
      }
      answer := None;
    }
  }
}
