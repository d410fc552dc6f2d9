/**
 What the unique indexes give over whole runs: distinct transaction ids, one earn per ticket
 in a program, and at most one expiration per earn.
 */
module LedgerUniqueness {
  import opened Wrappers
  import opened Clock
  import opened Receipts
  import opened Ledger
  import opened LedgerBalances
  import opened LedgerExpiry

  ghost predicate UniqueReceipts(log: seq<Transaction>) {
    forall i, j ::
      0 <= i < j < |log| && log[i].account.program == log[j].account.program && log[i].fingerprint.hash.Some? ==>
      log[i].fingerprint.hash != log[j].fingerprint.hash
  }

  ghost predicate UniqueMarks(log: seq<Transaction>) {
    forall i, j :: 0 <= i < j < |log| && log[i].kind == Expiration && log[j].kind == Expiration ==>
      log[i].expires != log[j].expires
  }

  ghost predicate TakesBack(x: Transaction, e: Transaction) {
    x.kind == Expiration && x.expires == Some(e.id) && x.account == e.account && x.amount == -e.amount && e.kind == Earn
  }

  /** Every expiration takes back, in full, one earn logged before it on the same account. */
  ghost predicate MarksPointBack(log: seq<Transaction>) {
    forall j :: 0 <= j < |log| && log[j].kind == Expiration ==> exists i :: 0 <= i < j && TakesBack(log[j], log[i])
  }

  ghost predicate Indexed(log: seq<Transaction>) {
    UniqueIds(log) && UniqueReceipts(log) && UniqueMarks(log) && MarksPointBack(log)
  }

  lemma SnocIndexed(log: seq<Transaction>, t: Transaction)
    requires Indexed(log) && !Collides(log, t) && t.kind != Expiration
    ensures Indexed(log + [t])
  {
    var log' := log + [t];
    forall i | 0 <= i < |log| ensures log[i].id != t.id {
      assert log[i] in log;
    }
    forall i | 0 <= i < |log| && log[i].account.program == t.account.program && log[i].fingerprint.hash.Some?
      ensures log[i].fingerprint.hash != t.fingerprint.hash
    {
      assert log[i] in log;
    }
    forall j | 0 <= j < |log'| && log'[j].kind == Expiration
      ensures exists i :: 0 <= i < j && TakesBack(log'[j], log'[i]) {
      var i :| 0 <= i < j && TakesBack(log[j], log[i]);
      assert log'[i] == log[i];
    }
  }

  lemma SnocMarkerIndexed(log: seq<Transaction>, x: Transaction, e: Transaction)
    requires Indexed(log) && TakesBack(x, e) && e in log && x.fingerprint == NO_FINGERPRINT
    requires !HasId(log, x.id) && !Marked(log, e.id)
    ensures Indexed(log + [x])
  {
    var log' := log + [x];
    forall i | 0 <= i < |log| ensures log[i].id != x.id && (log[i].kind == Expiration ==> log[i].expires != x.expires) {
      assert log[i] in log;
    }
    forall j | 0 <= j < |log'| && log'[j].kind == Expiration
      ensures exists i :: 0 <= i < j && TakesBack(log'[j], log'[i]) {
      if j < |log| {
        var i :| 0 <= i < j && TakesBack(log[j], log[i]);
        assert log'[i] == log[i];
      } else {
        var i :| 0 <= i < |log| && log[i] == e;
        assert log'[i] == e;
      }
    }
  }

  // ---------- the rows of one expiry are distinct ----------

  ghost predicate DistinctIds(rows: seq<Transaction>) {
    forall i, j :: 0 <= i < j < |rows| ==> rows[i].id != rows[j].id
  }

  lemma {:induction false} DueDistinct(log: seq<Transaction>, part: seq<Transaction>, a: Account, cutoff: int)
    requires UniqueIds(part)
    ensures DistinctIds(DueIn(log, part, a, cutoff))
  {
    if part != [] {
      var init := part[..|part| - 1];
      DueDistinct(log, init, a, cutoff);
      DueRows(log, init, a, cutoff);
      var rest := DueIn(log, init, a, cutoff);
      forall i | 0 <= i < |rest| ensures rest[i].id != part[|part| - 1].id {
        assert rest[i] in init;
      }
    }
  }

  lemma CountOnce(xs: seq<Transaction>, x: Transaction)
    requires DistinctIds(xs)
    ensures multiset(xs)[x] <= 1
  {
    if x in xs {
      var p :| 0 <= p < |xs| && xs[p] == x;
      MultisetWithout(xs, p);
      assert x !in xs[..p] + xs[p + 1..];
      assert x !in multiset(xs[..p] + xs[p + 1..]);
    }
  }

  lemma CountTwice(ys: seq<Transaction>, i: nat, j: nat)
    requires i < j < |ys| && ys[i] == ys[j]
    ensures multiset(ys)[ys[i]] >= 2
  {
    MultisetWithout(ys, i);
    var ys' := ys[..i] + ys[i + 1..];
    assert ys'[j - 1] == ys[j];
    assert ys[j] in multiset(ys');
  }

  lemma DistinctPermutation(xs: seq<Transaction>, ys: seq<Transaction>)
    requires multiset(xs) == multiset(ys) && DistinctIds(xs)
    ensures DistinctIds(ys)
  {
    forall i, j | 0 <= i < j < |ys| ensures ys[i].id != ys[j].id {
      assert ys[i] in multiset(ys) && ys[j] in multiset(ys);
      var p :| 0 <= p < |xs| && xs[p] == ys[i];
      var q :| 0 <= q < |xs| && xs[q] == ys[j];
      CountOnce(xs, ys[i]);
      if p == q {
        CountTwice(ys, i, j);
      }
    }
  }

  /** Appending the markers of distinct, unmarked earns under new ids keeps every index. */
  lemma {:induction false} MarkersIndexed(log: seq<Transaction>, log': seq<Transaction>, a: Account,
      rows: seq<Transaction>, ids: seq<Id>)
    requires Indexed(log) && AppendsMarkers(log, log', a, rows, ids) && DistinctIds(rows)
    requires forall e <- rows :: e in log && e.account == a && e.kind == Earn && !Marked(log, e.id)
    requires forall i :: 0 <= i < |ids| ==> !HasId(log, ids[i])
    requires forall i, j :: 0 <= i < j < |ids| ==> ids[i] != ids[j]
    ensures Indexed(log')
    decreases |rows|
  {
    if rows == [] {
      assert log' == log;
    } else {
      var (n, init) := (|rows| - 1, log'[..|log'| - 1]);
      assert AppendsMarkers(log, init, a, rows[..n], ids[..n]);
      MarkersIndexed(log, init, a, rows[..n], ids[..n]);
      var (e, x) := (rows[n], log'[|log| + n]);
      assert e in rows && IsMarker(x, a, e, ids[n]);
      MarkedAfter(log, init, a, rows[..n], ids[..n], e.id);
      LoggedIds(log, init, ids[..n], ids[n]);
      SnocMarkerIndexed(init, x, e);
      assert log' == init + [x];
    }
  }

  lemma ExpiryIndexed(schema: Schema, s: Tables, e: Event, s': Tables)
    requires Indexed(s.log) && ExpiresTo(schema, s, e, s')
    ensures Indexed(s'.log)
  {
    EnabledRows(s, e);
    DueDistinct(s.log, s.log, e.op.account, CutoffOf(e));
    DistinctPermutation(Expiring(s.log, e.op.account, CutoffOf(e)), e.op.rows);
    ExpiryOutcome(schema, s, e);
    MarkersIndexed(s.log, s'.log, e.op.account, e.op.rows, e.op.ids);
  }

  lemma StepIndexed(schema: Schema, s: Tables, e: Event)
    requires Indexed(s.log) && Enabled(s, e)
    ensures Indexed(After(schema, s, e.op, e.now).log)
  {
    var r := Step(schema, s, e.op, e.now);
    if r.Ok? && e.op.ExpireTx? {
      ExpiryIndexed(schema, s, e, r.value);
    } else if r.Ok? {
      StepPosts(schema, s, e.op, e.now);
      var t := NewRow(s, e.op, e.now);
      if t.Some? {
        SnocIndexed(s.log, t.value.(balanceAfter := Floor0(Balance(s, t.value.account) + t.value.amount)));
      }
    }
  }

  lemma {:induction false} RunIndexed(schema: Schema, run: seq<Event>)
    requires IsRun(schema, run)
    ensures Indexed(State(schema, run).log)
  {
    if run != [] {
      RunIndexed(schema, run[..|run| - 1]);
      StepIndexed(schema, State(schema, run[..|run| - 1]), run[|run| - 1]);
    }
  }

  /**
   Over a whole run each expiration takes back, in full, an earlier earn of its account that no other
   expiration takes back.
   */
  lemma EachEarnExpiresOnce(schema: Schema, run: seq<Event>, j: nat)
    requires IsRun(schema, run)
    requires j < |State(schema, run).log| && State(schema, run).log[j].kind == Expiration
    ensures var log := State(schema, run).log;
      && (exists e <- log[..j] :: TakesBack(log[j], e))
      && (forall k :: 0 <= k < |log| && k != j && log[k].kind == Expiration ==> log[k].expires != log[j].expires)
  {
    RunIndexed(schema, run);
    var log := State(schema, run).log;
    var i :| 0 <= i < j && TakesBack(log[j], log[i]);
    assert log[..j][i] == log[i];
  }

  // ---------- tickets ----------

  /** Every credited fingerprint was computed from an extract. */
  ghost predicate FingerprintsAre(n: Normaliser, run: seq<Event>) {
    forall e <- run :: e.op.AddTx? ==> exists inv :: IsFingerprint(n, inv, e.op.fingerprint)
  }

  ghost predicate RowsFingerprinted(n: Normaliser, log: seq<Transaction>) {
    forall t <- log :: exists inv :: IsFingerprint(n, inv, t.fingerprint)
  }

  lemma NoFingerprintIsOne(n: Normaliser)
    ensures IsFingerprint(n, None, NO_FINGERPRINT)
  {}

  lemma {:induction false} RunFingerprinted(n: Normaliser, schema: Schema, run: seq<Event>)
    requires IsRun(schema, run) && FingerprintsAre(n, run)
    ensures RowsFingerprinted(n, State(schema, run).log)
  {
    NoFingerprintIsOne(n);
    if run != [] {
      var (before, e) := (run[..|run| - 1], run[|run| - 1]);
      var s := State(schema, before);
      assert e in run;
      RunFingerprinted(n, schema, before);
      var r := Step(schema, s, e.op, e.now);
      if r.Ok? && e.op.ExpireTx? {
        ExpiryOutcome(schema, s, e);
        forall t <- r.value.log ensures exists inv :: IsFingerprint(n, inv, t.fingerprint) {
          MarkerHasNoFingerprint(s.log, r.value.log, e.op.account, e.op.rows, e.op.ids, t);
        }
      } else if r.Ok? {
        StepPosts(schema, s, e.op, e.now);
      }
    }
  }

  lemma MarkerHasNoFingerprint(log: seq<Transaction>, log': seq<Transaction>, a: Account, rows: seq<Transaction>,
      ids: seq<Id>, t: Transaction)
    requires AppendsMarkers(log, log', a, rows, ids) && t in log'
    ensures t in log || t.fingerprint == NO_FINGERPRINT
  {
    var k :| 0 <= k < |log'| && log'[k] == t;
    if k < |log| {
      assert log[k] in log;
    } else {
      assert IsMarker(log'[|log| + (k - |log|)], a, rows[k - |log|], ids[k - |log|]);
    }
  }

  /** The extract a credited row stands for, when it identifies its ticket. */
  ghost predicate StandsFor(t: Transaction, inv: Invoice) {
    t.fingerprint.data == Some(inv) && Identifies(inv)
  }

  /** No program's log holds two credits for the same confident ticket with a folio. */
  lemma NoTicketCreditedTwice(n: Normaliser, schema: Schema, run: seq<Event>, i: nat, j: nat, x: Invoice, y: Invoice)
    requires IsRun(schema, run) && FingerprintsAre(n, run)
    requires i < j < |State(schema, run).log|
    requires var log := State(schema, run).log;
      log[i].account.program == log[j].account.program && StandsFor(log[i], x) && StandsFor(log[j], y)
    ensures TicketOf(n, x) != TicketOf(n, y)
  {
    RunIndexed(schema, run);
    RunFingerprinted(n, schema, run);
    var log := State(schema, run).log;
    HashOfRow(n, log, i, x);
    HashOfRow(n, log, j, y);
  }

  lemma HashOfRow(n: Normaliser, log: seq<Transaction>, i: nat, inv: Invoice)
    requires i < |log| && RowsFingerprinted(n, log) && StandsFor(log[i], inv)
    ensures log[i].fingerprint.hash == Some(Sha256(TicketOf(n, inv).Preimage()))
  {
    assert log[i] in log;
    var o :| IsFingerprint(n, o, log[i].fingerprint);
    assert o == Some(inv);
  }

  /** A second credit for a ticket already in the program's log is refused and changes no table. */
  lemma RepeatedTicketRefused(n: Normaliser, schema: Schema, run: seq<Event>, e: Event, i: nat, x: Invoice, y: Invoice)
    requires IsRun(schema, run) && FingerprintsAre(n, run)
    requires e.op.AddTx? && IsFingerprint(n, Some(y), e.op.fingerprint) && Identifies(y)
    requires i < |State(schema, run).log|
    requires var t := State(schema, run).log[i];
      StandsFor(t, x) && TicketOf(n, x) == TicketOf(n, y) && t.account.program == e.op.account.program
    ensures var s := State(schema, run);
      Step(schema, s, e.op, e.now).Err? && After(schema, s, e.op, e.now) == s
  {
    RunFingerprinted(n, schema, run);
    var log := State(schema, run).log;
    HashOfRow(n, log, i, x);
    RepeatedReceiptRefused(schema, State(schema, run), e.op, e.now, log[i]);
  }

  /**
   Conversely, a credit with a fresh id is refused as a duplicate only when a ticket with the
   same digest was credited in the program: the very ticket, if no part of it holds a bar.
   */
  lemma DuplicateIsSeenTicket(n: Normaliser, schema: Schema, run: seq<Event>, e: Event, y: Invoice)
    returns (i: nat, x: Invoice)
    requires IsRun(schema, run) && FingerprintsAre(n, run)
    requires e.op.AddTx? && !HasId(State(schema, run).log, e.op.id)
    requires e.op.fingerprint.data == Some(y) && exists inv :: IsFingerprint(n, inv, e.op.fingerprint)
    requires Step(schema, State(schema, run), e.op, e.now) == Err(DuplicateReceipt)
    ensures Identifies(y) && i < |State(schema, run).log|
    ensures var t := State(schema, run).log[i]; t.account.program == e.op.account.program && StandsFor(t, x)
    ensures TicketOf(n, x).Preimage() == TicketOf(n, y).Preimage()
    ensures BarFree(TicketOf(n, y)) ==> TicketOf(n, x) == TicketOf(n, y)
  {
    RunFingerprinted(n, schema, run);
    var log := State(schema, run).log;
    i := RefusedForReceipt(schema, State(schema, run), e.op, e.now);
    assert log[i] in log;
    x := HashedExtract(n, log[i].fingerprint);
    var y' := HashedExtract(n, e.op.fingerprint);
    SameDigest(TicketOf(n, x), TicketOf(n, y));
  }

  lemma SameDigest(t: Ticket, u: Ticket)
    requires Sha256(t.Preimage()) == Sha256(u.Preimage())
    ensures BarFree(u) ==> t == u
  {
    if BarFree(u) {
      BarFreeIsSafe(u, t);
    }
  }

  lemma RefusedForReceipt(schema: Schema, s: Tables, op: Op, now: int) returns (i: nat)
    requires op.AddTx? && !HasId(s.log, op.id) && Step(schema, s, op, now) == Err(DuplicateReceipt)
    ensures i < |s.log| && s.log[i].account.program == op.account.program
    ensures op.fingerprint.hash.Some? && s.log[i].fingerprint.hash == op.fingerprint.hash
  {
    var x :| x in s.log && x.account.program == op.account.program && x.fingerprint.hash == op.fingerprint.hash;
    i :| 0 <= i < |s.log| && s.log[i] == x;
  }

  /** A fingerprint with a hash carries the extract it was computed from. */
  lemma HashedExtract(n: Normaliser, fp: Fingerprint) returns (x: Invoice)
    requires fp.hash.Some? && exists o :: IsFingerprint(n, o, fp)
    ensures fp.data == Some(x) && Identifies(x) && fp.hash == Some(Sha256(TicketOf(n, x).Preimage()))
  {
    var o :| IsFingerprint(n, o, fp);
    x := o.value;
  }
}
