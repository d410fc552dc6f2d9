/**
 Receipt fingerprints: which extracts of a ticket are given a dedup hash, and when two of
 them are given the same one.

 Case folding and date parsing come from libraries, so they are parameters (`Normaliser`).
 The hash function is ideal: a digest is its preimage under a constructor.
 */
module Receipts {
  import opened Wrappers

  /** The library functions the canonical form is built on. */
  datatype Normaliser = Normaliser(lower: char -> char, date: string -> string)

  /** Case folding is idempotent and leaves ASCII that is not an upper-case letter alone. */
  ghost predicate Lawful(n: Normaliser) {
    && (forall c :: n.lower(n.lower(c)) == n.lower(c))
    && (forall c :: c as int < 128 && !('A' <= c <= 'Z') ==> n.lower(c) == c)
  }

  /** Amounts are whole hundredths. */
  datatype Invoice = Invoice(
    total: int, subtotal: int, tax: int, tip: int, currency: string,
    businessName: string, businessRfc: string, businessAddress: string,
    invoiceNumber: string, date: string, paymentMethod: string,
    items: nat, confident: bool)

  datatype Digest = Sha256(preimage: string)

  datatype Fingerprint = Fingerprint(
    data: Option<Invoice>, hash: Option<Digest>, hashFields: seq<string>, confident: bool)

  // ---------- text ----------

  /** White space in the sense of trimming: the Unicode property. */
  predicate IsSpace(c: char) {
    || c == ' ' || 9 <= c as int <= 13
    || c as int in {0x85, 0xA0, 0x1680, 0x2028, 0x2029, 0x202F, 0x205F, 0x3000}
    || 0x2000 <= c as int <= 0x200A
  }

  /** White space in the sense of the collapsing pattern: tab, LF, FF, CR and space only. */
  predicate IsPatternSpace(c: char) {
    c == ' ' || c as int in {9, 10, 12, 13}
  }

  function TrimLeft(s: string): (r: string)
  {
    if s != [] && IsSpace(s[0]) then TrimLeft(s[1..]) else s
  }

  function TrimRight(s: string): (r: string)
  {
    if s != [] && IsSpace(s[|s| - 1]) then TrimRight(s[..|s| - 1]) else s
  }

  function TrimSpace(s: string): string {
    TrimRight(TrimLeft(s))
  }

  function Lower(n: Normaliser, s: string): (r: string)
    ensures |r| == |s|
    ensures forall i :: 0 <= i < |s| ==> r[i] == n.lower(s[i])
  {
    seq(|s|, i requires 0 <= i < |s| => n.lower(s[i]))
  }

  /** Every run of pattern space becomes one space. */
  function Collapse(s: string): string {
    if s == [] then []
    else if !IsPatternSpace(s[0]) then [s[0]] + Collapse(s[1..])
    else if |s| > 1 && IsPatternSpace(s[1]) then Collapse(s[1..])
    else [' '] + Collapse(s[1..])
  }

  function NormalizeText(n: Normaliser, s: string): string {
    Collapse(TrimSpace(Lower(n, s)))
  }

  predicate IsAlphanumeric(c: char) {
    'a' <= c <= 'z' || '0' <= c <= '9'
  }

  function Alphanumerics(s: string): (r: string)
    ensures forall c <- r :: IsAlphanumeric(c)
  {
    if s == [] then []
    else Alphanumerics(s[..|s| - 1]) + if IsAlphanumeric(s[|s| - 1]) then [s[|s| - 1]] else []
  }

  function RfcOf(n: Normaliser, s: string): string {
    Alphanumerics(Lower(n, TrimSpace(s)))
  }

  method NormalizeRfc(n: Normaliser, s: string) returns (r: string)
    ensures r == RfcOf(n, s)
  {
    var t := Lower(n, TrimSpace(s));
    r := [];
    for i := 0 to |t|
      invariant r == Alphanumerics(t[..i])
    {
      assert t[..i + 1][..i] == t[..i];
      if IsAlphanumeric(t[i]) {
        r := r + [t[i]];
      }
    }
    assert t[..|t|] == t;
  }

  // ---------- numbers ----------

  function Digits(v: nat): (r: string)
    ensures r != [] && AllDigits(r)
  {
    var d := ['0' + (v % 10) as char];
    if v < 10 then d else Digits(v / 10) + d
  }

  predicate AllDigits(s: string) {
    forall i :: 0 <= i < |s| ==> '0' <= s[i] <= '9'
  }

  /** A total with two decimals. */
  function NormalizeAmount(v: int): string {
    if v < 0 then "-" + Decimal(-v) else Decimal(v)
  }

  function Decimal(m: nat): string {
    Digits(m / 100) + "." + ['0' + (m % 100 / 10) as char, '0' + (m % 100 % 10) as char]
  }

  function NormalizeDate(n: Normaliser, s: string): string {
    if TrimSpace(s) == [] then [] else n.date(TrimSpace(s))
  }

  // ---------- fingerprint ----------

  /** The four canonical parts of a ticket: business, folio, date and total. */
  datatype Ticket = Ticket(business: string, folio: string, date: string, total: string) {
    function Preimage(): string {
      business + ("|" + (folio + ("|" + (date + ("|" + total)))))
    }
  }

  function TicketOf(n: Normaliser, inv: Invoice): Ticket {
    Ticket(if RfcOf(n, inv.businessRfc) != [] then RfcOf(n, inv.businessRfc) else NormalizeText(n, inv.businessName),
           NormalizeText(n, inv.invoiceNumber), NormalizeDate(n, inv.date), NormalizeAmount(inv.total))
  }

  /** The extract identifies its ticket: the extractor is confident and there is a folio. */
  predicate Identifies(inv: Invoice) {
    inv.confident && TrimSpace(inv.invoiceNumber) != []
  }

  predicate HasExtractData(inv: Invoice) {
    || inv.confident
    || inv.total != 0 || inv.subtotal != 0 || inv.tax != 0 || inv.tip != 0
    || TrimSpace(inv.currency) != [] || TrimSpace(inv.businessName) != []
    || TrimSpace(inv.businessRfc) != [] || TrimSpace(inv.businessAddress) != []
    || TrimSpace(inv.invoiceNumber) != [] || TrimSpace(inv.date) != []
    || TrimSpace(inv.paymentMethod) != []
    || inv.items > 0
  }

  /** What the fingerprint of an extract must be, field by field. */
  ghost predicate IsFingerprint(n: Normaliser, inv: Option<Invoice>, fp: Fingerprint) {
    && fp.confident == (inv.Some? && inv.value.confident)
    && fp.data == (if inv.Some? && HasExtractData(inv.value) then inv else None)
    && fp.hash == (if inv.Some? && Identifies(inv.value) then Some(Sha256(TicketOf(n, inv.value).Preimage())) else None)
    && fp.hashFields == (
      if !(inv.Some? && Identifies(inv.value)) then []
      else [if RfcOf(n, inv.value.businessRfc) != [] then "business_rfc" else "business_name",
            "invoice_number", "date", "total"])
  }

  method ComputeFingerprint(n: Normaliser, inv: Option<Invoice>) returns (fp: Fingerprint)
    ensures IsFingerprint(n, inv, fp)
  {
    fp := Fingerprint(None, None, [], false);
    if inv.None? {
      return;
    }
    fp := fp.(confident := inv.value.confident);
    if HasExtractData(inv.value) {
      fp := fp.(data := inv);
    }
    if !inv.value.confident || TrimSpace(inv.value.invoiceNumber) == [] {
      return;
    }
    var businessField, businessVal := "business_name", NormalizeText(n, inv.value.businessName);
    var rfc := NormalizeRfc(n, inv.value.businessRfc);
    if rfc != [] {
      businessField, businessVal := "business_rfc", rfc;
    }
    fp := fp.(hashFields := [businessField, "invoice_number", "date", "total"]);
    var parts := Ticket(businessVal, NormalizeText(n, inv.value.invoiceNumber),
                        NormalizeDate(n, inv.value.date), NormalizeAmount(inv.value.total));
    fp := fp.(hash := Some(Sha256(parts.Preimage())));
  }

  // ---------- the joined preimage ----------

  function Bars(s: string): nat {
    if s == [] then 0 else Bars(s[..|s| - 1]) + if s[|s| - 1] == '|' then 1 else 0
  }

  lemma {:induction false} BarsConcat(a: string, b: string)
    ensures Bars(a + b) == Bars(a) + Bars(b)
  {
    if b == [] {
      assert a + b == a;
    } else {
      assert (a + b)[..|a + b| - 1] == a + b[..|b| - 1];
      BarsConcat(a, b[..|b| - 1]);
    }
  }

  lemma BarsJoin(a: string, b: string)
    ensures Bars(a + ("|" + b)) == Bars(a) + 1 + Bars(b)
  {
    assert Bars("|") == 1 by { assert "|"[..0] == []; }
    BarsConcat("|", b);
    BarsConcat(a, "|" + b);
  }

  lemma LongerStartsWithOther(a: string, b: string, x: string, y: string) returns (r: string)
    requires a + ("|" + x) == b + ("|" + y) && |a| < |b|
    ensures b == a + ("|" + r)
  {
    var s, n := a + ("|" + x), |a|;
    r := b[n + 1..];
    assert s[..n] == a && s[n] == '|';
    assert s[..n] == b[..n] && s[n] == b[n];
    assert b == b[..n] + ([b[n]] + r);
  }

  lemma LongerHasMoreBars(a: string, b: string, x: string, y: string)
    requires a + ("|" + x) == b + ("|" + y) && |a| < |b|
    ensures Bars(a) < Bars(b)
  {
    var r := LongerStartsWithOther(a, b, x, y);
    BarsJoin(a, r);
  }

  /** Two parts with equally many bars, each closed by a bar, are equal when the joins are. */
  lemma SplitAtBar(a: string, b: string, x: string, y: string)
    requires Bars(a) == Bars(b)
    requires a + ("|" + x) == b + ("|" + y)
    ensures a == b && x == y
  {
    if |a| < |b| {
      LongerHasMoreBars(a, b, x, y);
    } else if |b| < |a| {
      LongerHasMoreBars(b, a, y, x);
    } else {
      var s := a + ("|" + x);
      assert a == s[..|a|] == b;
      assert x == s[|a| + 1..] == y;
    }
  }

  predicate SameBars(t: Ticket, u: Ticket) {
    && Bars(t.business) == Bars(u.business) && Bars(t.folio) == Bars(u.folio)
    && Bars(t.date) == Bars(u.date) && Bars(t.total) == Bars(u.total)
  }

  /**
   Joined parts collide only through a separator inside a part: whenever corresponding
   parts hold equally many bars, equal preimages mean equal parts.
   */
  lemma PreimageInjective(t: Ticket, u: Ticket)
    requires SameBars(t, u)
    ensures t.Preimage() == u.Preimage() <==> t == u
  {
    if t.Preimage() == u.Preimage() {
      SplitAtBar(t.business, u.business, t.folio + ("|" + (t.date + ("|" + t.total))), u.folio
          + ("|" + (u.date + ("|" + u.total))));
      SplitAtBar(t.folio, u.folio, t.date + ("|" + t.total), u.date + ("|" + u.total));
      SplitAtBar(t.date, u.date, t.total, u.total);
    }
  }

  predicate BarFree(t: Ticket) {
    '|' !in t.business && '|' !in t.folio && '|' !in t.date && '|' !in t.total
  }

  lemma PreimageBarsAll(t: Ticket)
    ensures Bars(t.Preimage()) == Bars(t.business) + Bars(t.folio) + Bars(t.date) + Bars(t.total) + 3
  {
    BarsJoin(t.business, t.folio + ("|" + (t.date + ("|" + t.total))));
    BarsJoin(t.folio, t.date + ("|" + t.total));
    BarsJoin(t.date, t.total);
  }

  lemma BarFreeHasNone(t: Ticket)
    ensures BarFree(t) <==> Bars(t.business) == Bars(t.folio) == Bars(t.date) == Bars(t.total) == 0
  {
    BarsIffIn(t.business);
    BarsIffIn(t.folio);
    BarsIffIn(t.date);
    BarsIffIn(t.total);
  }

  lemma {:induction false} BarsIffIn(s: string)
    ensures '|' in s <==> Bars(s) > 0
  {
    if s != [] {
      BarsIffIn(s[..|s| - 1]);
      assert s == s[..|s| - 1] + [s[|s| - 1]];
    }
  }

  lemma BarFreeIsSafe(t: Ticket, u: Ticket)
    requires BarFree(t) && u.Preimage() == t.Preimage()
    ensures u == t
  {
    PreimageBarsAll(t);
    PreimageBarsAll(u);
    BarFreeHasNone(t);
    PreimageInjective(t, u);
  }

  lemma SplitsAtBar(s: string)
    requires '|' in s
    ensures exists l, r :: s == l + ("|" + r)
  {
    var k :| 0 <= k < |s| && s[k] == '|';
    assert s == s[..k] + ([s[k]] + s[k + 1..]);
  }

  /** The two parts read as one before, and one bar later. */
  lemma Regrouped(a: string, l: string, r: string, b: string)
    requires a == l + ("|" + r)
    ensures a + ("|" + b) == l + ("|" + (r + ("|" + b))) && a != l
  {
    assert |a| > |l|;
  }

  lemma BarInTotal(t: Ticket, l: string, r: string)
    requires t.total == l + ("|" + r)
    ensures Ticket(t.business, t.folio, t.date + ("|" + l), r).Preimage() == t.Preimage()
    ensures t.total != r
  {
    assert |t.total| > |r|;
    assert (t.date + ("|" + l)) + ("|" + r) == t.date + ("|" + t.total);
  }

  /** A bar inside a part can be read as the one that ends it. */
  lemma BarIsAmbiguous(t: Ticket)
    requires !BarFree(t)
    ensures exists u: Ticket :: u != t && u.Preimage() == t.Preimage()
  {
    if '|' in t.business {
      SplitsAtBar(t.business);
      var l, r :| t.business == l + ("|" + r);
      var u := Ticket(l, r + ("|" + t.folio), t.date, t.total);
      Regrouped(t.business, l, r, t.folio + ("|" + (t.date + ("|" + t.total))));
      assert (r + ("|" + t.folio)) + ("|" + (t.date + ("|" + t.total))) ==
             r + ("|" + (t.folio + ("|" + (t.date + ("|" + t.total)))));
      assert u != t && u.Preimage() == t.Preimage();
    } else if '|' in t.folio {
      SplitsAtBar(t.folio);
      var l, r :| t.folio == l + ("|" + r);
      var u := Ticket(t.business, l, r + ("|" + t.date), t.total);
      Regrouped(t.folio, l, r, t.date + ("|" + t.total));
      assert (r + ("|" + t.date)) + ("|" + t.total) == r + ("|" + (t.date + ("|" + t.total)));
      assert u != t && u.Preimage() == t.Preimage();
    } else if '|' in t.date {
      SplitsAtBar(t.date);
      var l, r :| t.date == l + ("|" + r);
      var u := Ticket(t.business, t.folio, l, r + ("|" + t.total));
      Regrouped(t.date, l, r, t.total);
      assert u != t && u.Preimage() == t.Preimage();
    } else {
      SplitsAtBar(t.total);
      var l, r :| t.total == l + ("|" + r);
      BarInTotal(t, l, r);
    }
  }

  /** No other ticket shares a ticket's preimage exactly when no part of it holds a bar. */
  lemma BarFreeIffUnmistakable(t: Ticket)
    ensures BarFree(t) <==> forall u: Ticket :: u.Preimage() == t.Preimage() ==> u == t
  {
    if BarFree(t) {
      forall u: Ticket | u.Preimage() == t.Preimage() ensures u == t {
        BarFreeIsSafe(t, u);
      }
    } else {
      BarIsAmbiguous(t);
    }
  }

  /** A confident extract of which only the business name and the folio were read. */
  function NamedExtract(name: string, folio: string): Invoice {
    Invoice(0, 0, 0, 0, "", name, "", "", folio, "", "", 0, true)
  }

  /** Text already canonical: lower-case, and without white space. */
  predicate IsCanonical(s: string) {
    forall c <- s :: c as int < 128 && !('A' <= c <= 'Z') && !IsSpace(c)
  }

  lemma CanonicalIsFixed(n: Normaliser, s: string)
    requires Lawful(n) && IsCanonical(s)
    ensures NormalizeText(n, s) == s
  {
    assert forall i :: 0 <= i < |s| ==> s[i] in s;
    assert Lower(n, s) == s;
    TrimFixed(s);
    assert forall i :: 0 <= i < |s| ==> !IsPatternSpace(s[i]);
    CollapseFixed(s);
  }

  lemma NamedTicket(n: Normaliser, name: string, folio: string)
    requires Lawful(n) && IsCanonical(name) && IsCanonical(folio) && folio != ""
    ensures TicketOf(n, NamedExtract(name, folio)) == Ticket(name, folio, "", NormalizeAmount(0))
    ensures Identifies(NamedExtract(name, folio))
  {
    CanonicalIsFixed(n, name);
    CanonicalIsFixed(n, folio);
    assert forall i :: 0 <= i < |folio| ==> folio[i] in folio;
    TrimFixed(folio);
    assert Lower(n, "") == "";
  }

  lemma MovedBar(a: string, b: string, c: string, z: string)
    ensures (a + ("|" + b)) + ("|" + (c + ("|" + z))) == a + ("|" + ((b + ("|" + c)) + ("|" + z)))
  {}

  lemma CanonicalJoin(a: string, b: string)
    requires IsCanonical(a) && IsCanonical(b)
    ensures IsCanonical(a + ("|" + b))
  {
    assert !IsSpace('|');
  }

  /**
   It happens to extracts, whatever the canonical pieces: "a|b" with folio "c" and "a" with folio
   "b|c" are confident, and share a digest though their tickets differ.
   */
  lemma ExtractsCollide(n: Normaliser, a: string, b: string, c: string)
    requires Lawful(n) && IsCanonical(a) && IsCanonical(b) && IsCanonical(c) && c != ""
    ensures var (x, y) := (NamedExtract(a + ("|" + b), c), NamedExtract(a, b + ("|" + c)));
      && Identifies(x) && Identifies(y) && TicketOf(n, x) != TicketOf(n, y)
      && TicketOf(n, x).Preimage() == TicketOf(n, y).Preimage()
  {
    var (ab, bc) := (a + ("|" + b), b + ("|" + c));
    CanonicalJoin(a, b);
    CanonicalJoin(b, c);
    NamedTicket(n, ab, c);
    NamedTicket(n, a, bc);
    MovedBar(a, b, c, "" + ("|" + NormalizeAmount(0)));
    assert |ab| > |a|;
  }

  lemma {:induction false} NoBars(s: string)
    requires '|' !in s
    ensures Bars(s) == 0
  {
    if s != [] {
      NoBars(s[..|s| - 1]);
    }
  }

  /**
   For tickets identified by their RFC with bar-free dates, the digest decides equality
   whatever the folios contain: the folio is then the only part that can hold a bar.
   */
  lemma {:induction false} RfcTicketInjective(n: Normaliser, a: Invoice, b: Invoice)
    requires RfcOf(n, a.businessRfc) != [] && RfcOf(n, b.businessRfc) != []
    requires '|' !in NormalizeDate(n, a.date) && '|' !in NormalizeDate(n, b.date)
    ensures Sha256(TicketOf(n, a).Preimage()) == Sha256(TicketOf(n, b).Preimage()) <==> TicketOf(n, a) == TicketOf(n, b)
  {
    RfcTicketBars(n, a);
    RfcTicketBars(n, b);
    OnlyFolioBarsInjective(TicketOf(n, a), TicketOf(n, b));
  }

  lemma RfcTicketBars(n: Normaliser, inv: Invoice)
    requires RfcOf(n, inv.businessRfc) != [] && '|' !in NormalizeDate(n, inv.date)
    ensures OnlyFolioHasBars(TicketOf(n, inv))
  {
    var t := TicketOf(n, inv);
    assert t.business == RfcOf(n, inv.businessRfc) && t.date == NormalizeDate(n, inv.date);
    AmountHasNoBar(inv.total);
    AlphanumericsHaveNoBar(Lower(n, TrimSpace(inv.businessRfc)));
  }

  lemma AlphanumericsHaveNoBar(s: string)
    ensures '|' !in Alphanumerics(s)
  {
    assert !IsAlphanumeric('|');
  }

  lemma AmountHasNoBar(v: int)
    ensures '|' !in NormalizeAmount(v)
  {
    var m := if v < 0 then -v else v;
    assert '|' !in Digits(m / 100);
    assert '|' !in Decimal(m);
  }

  ghost predicate OnlyFolioHasBars(t: Ticket) {
    '|' !in t.business && '|' !in t.date && '|' !in t.total
  }

  lemma OnlyFolioBarsInjective(t: Ticket, u: Ticket)
    requires OnlyFolioHasBars(t) && OnlyFolioHasBars(u)
    ensures t.Preimage() == u.Preimage() <==> t == u
  {
    NoBars(t.business); NoBars(t.date); NoBars(t.total);
    NoBars(u.business); NoBars(u.date); NoBars(u.total);
    PreimageBars(t);
    PreimageBars(u);
    if t.Preimage() == u.Preimage() {
      PreimageInjective(t, u);
    }
  }

  lemma PreimageBars(t: Ticket)
    ensures Bars(t.Preimage()) == Bars(t.business) + Bars(t.folio) + Bars(t.date) + Bars(t.total) + 3
  {
    BarsJoin(t.date, t.total);
    BarsJoin(t.folio, t.date + ("|" + t.total));
    BarsJoin(t.business, t.folio + ("|" + (t.date + ("|" + t.total))));
  }

  // ---------- OCR variance ----------

  function Value(s: string): nat
    requires AllDigits(s)
  {
    if s == [] then 0 else 10 * Value(s[..|s| - 1]) + (s[|s| - 1] as int - '0' as int)
  }

  lemma {:induction false} DigitsRoundTrip(v: nat)
    ensures Value(Digits(v)) == v
  {
    var d := Digits(v);
    if v >= 10 {
      DigitsRoundTrip(v / 10);
      assert d[..|d| - 1] == Digits(v / 10);
    } else {
      assert d[..|d| - 1] == [];
    }
  }

  lemma DecimalInjective(m: nat, k: nat)
    requires Decimal(m) == Decimal(k)
    ensures m == k
  {
    var s, p := Decimal(m), |Decimal(m)| - 3;
    assert s[..p] == Digits(m / 100) && Decimal(k)[..p] == Digits(k / 100);
    DigitsRoundTrip(m / 100);
    DigitsRoundTrip(k / 100);
    DigitInjective(m % 100 / 10, k % 100 / 10, s[p + 1]);
    DigitInjective(m % 100 % 10, k % 100 % 10, s[p + 2]);
    TensInjective(m % 100, k % 100);
    HundredsInjective(m, k);
  }

  lemma DigitInjective(x: nat, y: nat, c: char)
    requires x < 10 && y < 10 && '0' + x as char == c == '0' + y as char
    ensures x == y
  {
    assert c as int == '0' as int + x;
  }

  lemma TensInjective(x: nat, y: nat)
    requires x / 10 == y / 10 && x % 10 == y % 10
    ensures x == y
  {}

  lemma HundredsInjective(x: nat, y: nat)
    requires x / 100 == y / 100 && x % 100 == y % 100
    ensures x == y
  {}

  /** Totals print alike exactly when they are the same number of hundredths. */
  lemma AmountInjective(v: int, w: int)
    ensures NormalizeAmount(v) == NormalizeAmount(w) <==> v == w
  {
    if NormalizeAmount(v) == NormalizeAmount(w) {
      var (m, k) := (if v < 0 then -v else v, if w < 0 then -w else w);
      assert Decimal(m)[0] == Digits(m / 100)[0] && Decimal(k)[0] == Digits(k / 100)[0];
      assert v < 0 <==> NormalizeAmount(v)[0] == '-';
      assert w < 0 <==> NormalizeAmount(w)[0] == '-';
      if v < 0 {
        assert Decimal(m) == NormalizeAmount(v)[1..] == NormalizeAmount(w)[1..] == Decimal(k);
      }
      DecimalInjective(m, k);
    }
  }

  lemma {:induction false} AlphanumericsConcat(a: string, b: string)
    ensures Alphanumerics(a + b) == Alphanumerics(a) + Alphanumerics(b)
  {
    if b == [] {
      assert a + b == a;
    } else {
      assert (a + b)[..|a + b| - 1] == a + b[..|b| - 1];
      AlphanumericsConcat(a, b[..|b| - 1]);
    }
  }

  lemma {:induction false} NoAlphanumerics(s: string)
    requires forall c <- s :: !IsAlphanumeric(c)
    ensures Alphanumerics(s) == []
  {
    if s != [] {
      NoAlphanumerics(s[..|s| - 1]);
    }
  }

  /** The letters and digits of a text, folded to lower case. */
  function Folded(n: Normaliser, s: string): string {
    Alphanumerics(Lower(n, s))
  }

  lemma FoldedConcat(n: Normaliser, a: string, b: string)
    ensures Folded(n, a + b) == Folded(n, a) + Folded(n, b)
  {
    assert Lower(n, a + b) == Lower(n, a) + Lower(n, b);
    AlphanumericsConcat(Lower(n, a), Lower(n, b));
  }

  lemma FoldedNoise(n: Normaliser, s: string)
    requires forall c <- s :: !IsAlphanumeric(n.lower(c))
    ensures Folded(n, s) == []
  {
    NoAlphanumerics(Lower(n, s));
  }

  /** No white space folds to a letter or digit. */
  ghost predicate SpacesAreNoise(n: Normaliser) {
    forall c :: IsSpace(c) ==> !IsAlphanumeric(n.lower(c))
  }

  /** Separators and blanks never change an RFC, wherever they are and however many. */
  lemma RfcIgnoresNoise(n: Normaliser, a: string, noise: string, b: string)
    requires SpacesAreNoise(n)
    requires forall c <- noise :: !IsAlphanumeric(n.lower(c))
    ensures RfcOf(n, a + noise + b) == RfcOf(n, a + b)
  {
    assert Folded(n, a + noise + b) == Folded(n, a + b) by {
      FoldedConcat(n, a + noise, b);
      FoldedConcat(n, a, noise);
      FoldedConcat(n, a, b);
      FoldedNoise(n, noise);
      assert Folded(n, a) + [] == Folded(n, a);
    }
    RfcUntrimmed(n, a + noise + b);
    RfcUntrimmed(n, a + b);
  }

  lemma RfcUntrimmed(n: Normaliser, s: string)
    requires SpacesAreNoise(n)
    ensures RfcOf(n, s) == Folded(n, s)
  {
    FoldedTrimLeft(n, s);
    FoldedTrimRight(n, TrimLeft(s));
  }

  lemma {:induction false} FoldedTrimLeft(n: Normaliser, s: string)
    requires SpacesAreNoise(n)
    ensures Folded(n, TrimLeft(s)) == Folded(n, s)
  {
    if s != [] && IsSpace(s[0]) {
      FoldedTrimLeft(n, s[1..]);
      FoldedConcat(n, [s[0]], s[1..]);
      FoldedNoise(n, [s[0]]);
      assert s == [s[0]] + s[1..];
    }
  }

  lemma {:induction false} FoldedTrimRight(n: Normaliser, s: string)
    requires SpacesAreNoise(n)
    ensures Folded(n, TrimRight(s)) == Folded(n, s)
  {
    if s != [] && IsSpace(s[|s| - 1]) {
      var (init, last) := (s[..|s| - 1], [s[|s| - 1]]);
      FoldedTrimRight(n, init);
      FoldedConcat(n, init, last);
      FoldedNoise(n, last);
      assert s == init + last;
      assert Folded(n, init) + [] == Folded(n, init);
    }
  }

  /** No two neighbouring pattern spaces, and none but the plain space. */
  ghost predicate Collapsed(s: string) {
    && (forall i :: 0 <= i < |s| && IsPatternSpace(s[i]) ==> s[i] == ' ')
    && (forall i :: 0 < i < |s| && IsPatternSpace(s[i]) ==> !IsPatternSpace(s[i - 1]))
  }

  lemma {:induction false} CollapseCollapses(s: string)
    ensures Collapsed(Collapse(s))
    ensures s != [] ==> Collapse(s) != [] && (IsPatternSpace(Collapse(s)[0]) <==> IsPatternSpace(s[0]))
    ensures s != [] && !IsPatternSpace(s[0]) ==> Collapse(s)[0] == s[0]
    ensures forall c <- Collapse(s) :: c in s || c == ' '
  {
    if s != [] {
      CollapseCollapses(s[1..]);
    }
  }

  lemma {:induction false} CollapseFixed(s: string)
    requires Collapsed(s)
    ensures Collapse(s) == s
  {
    if s != [] {
      var t := s[1..];
      assert forall i :: 0 <= i < |t| ==> t[i] == s[i + 1];
      assert forall i :: 0 < i < |t| ==> t[i - 1] == s[i];
      CollapseFixed(t);
    }
  }

  lemma {:induction false} CollapseLast(s: string)
    requires s != [] && !IsPatternSpace(s[|s| - 1])
    ensures Collapse(s) != [] && Collapse(s)[|Collapse(s)| - 1] == s[|s| - 1]
  {
    if |s| > 1 {
      CollapseLast(s[1..]);
    }
  }

  /** The canonical text is a fixed point: re-reading a canonical value changes nothing. */
  lemma NormalizeTextIdempotent(n: Normaliser, s: string)
    requires Lawful(n)
    ensures NormalizeText(n, NormalizeText(n, s)) == NormalizeText(n, s)
  {
    var t := TrimSpace(Lower(n, s));
    var r := Collapse(t);
    TrimmedEnds(Lower(n, s));
    CollapseCollapses(t);
    if t != [] {
      CollapseLast(t);
    }
    assert Lower(n, r) == r by {
      forall i | 0 <= i < |r| ensures n.lower(r[i]) == r[i] {
        assert r[i] in t || r[i] == ' ';
      }
    }
    TrimFixed(r);
    CollapseFixed(r);
  }

  lemma {:induction false} TrimLeftEnds(s: string)
    ensures var r := TrimLeft(s);
      && |r| <= |s| && r == s[|s| - |r|..] && (r != [] ==> !IsSpace(r[0]) && r[|r| - 1] == s[|s| - 1])
  {
    if s != [] && IsSpace(s[0]) {
      TrimLeftEnds(s[1..]);
    }
  }

  lemma {:induction false} TrimRightEnds(s: string)
    ensures var r := TrimRight(s); r <= s && (r != [] ==> !IsSpace(r[|r| - 1]))
  {
    if s != [] && IsSpace(s[|s| - 1]) {
      TrimRightEnds(s[..|s| - 1]);
    }
  }

  lemma TrimmedEnds(s: string)
    ensures TrimSpace(s) != [] ==> !IsSpace(TrimSpace(s)[0]) && !IsSpace(TrimSpace(s)[|TrimSpace(s)| - 1])
    ensures forall c <- TrimSpace(s) :: c in s
  {
    TrimLeftEnds(s);
    TrimRightEnds(TrimLeft(s));
  }

  lemma TrimFixed(s: string)
    requires s != [] ==> !IsSpace(s[0]) && !IsSpace(s[|s| - 1])
    ensures TrimSpace(s) == s
  {}

  // ---------- what is kept and what is hashed ----------

  /** Something besides white space. */
  predicate HasText(s: string) {
    exists i :: 0 <= i < |s| && !IsSpace(s[i])
  }

  lemma {:induction false} TrimLeftKeepsText(s: string)
    ensures TrimLeft(s) != [] <==> HasText(s)
  {
    if s != [] && IsSpace(s[0]) {
      TrimLeftKeepsText(s[1..]);
      if i :| 0 <= i < |s| && !IsSpace(s[i]) {
        assert s[1..][i - 1] == s[i];
      }
    }
  }

  lemma TrimKeepsText(s: string)
    ensures TrimSpace(s) != [] <==> HasText(s)
  {
    TrimLeftKeepsText(s);
    TrimLeftEnds(s);
    TrimRightKeepsFirst(TrimLeft(s));
  }

  lemma {:induction false} TrimRightKeepsFirst(s: string)
    requires s != [] ==> !IsSpace(s[0])
    ensures TrimRight(s) == [] <==> s == []
  {
    if |s| > 1 && IsSpace(s[|s| - 1]) {
      TrimRightKeepsFirst(s[..|s| - 1]);
    }
  }

  /** The texts of an extract. */
  function Texts(inv: Invoice): seq<string> {
    [inv.currency, inv.businessName, inv.businessRfc, inv.businessAddress, inv.invoiceNumber, inv.date,
     inv.paymentMethod]
  }

  /**
   An extract is kept exactly when it is confident, has an item or an amount, or has more than
   white space in some text. It gets a hash exactly when it is confident and there is more than
   white space in its folio; the hash then names the four fields it is made of.
   */
  lemma KeptAndHashedWhen(n: Normaliser, inv: Invoice, fp: Fingerprint)
    requires IsFingerprint(n, Some(inv), fp)
    ensures fp.data == Some(inv) <==>
      || inv.confident || inv.items > 0 || inv.total != 0 || inv.subtotal != 0 || inv.tax != 0 || inv.tip != 0
      || exists t <- Texts(inv) :: HasText(t)
    ensures fp.data == None || fp.data == Some(inv)
    ensures fp.hash.Some? <==> inv.confident && HasText(inv.invoiceNumber)
    ensures |fp.hashFields| == if inv.confident && HasText(inv.invoiceNumber) then 4 else 0
  {
    var texts := Texts(inv);
    forall i | 0 <= i < |texts| ensures TrimSpace(texts[i]) != [] <==> HasText(texts[i]) {
      TrimKeepsText(texts[i]);
    }
    assert HasExtractData(inv) <==>
      || inv.confident || inv.items > 0 || inv.total != 0 || inv.subtotal != 0 || inv.tax != 0 || inv.tip != 0
      || HasText(texts[0]) || HasText(texts[1]) || HasText(texts[2]) || HasText(texts[3]) || HasText(texts[4])
      || HasText(texts[5]) || HasText(texts[6]);
  }

  /**
   Two confident extracts with folios and RFCs, and no bar in their dates, get the same hash exactly
   when they agree on RFC, folio, date and total; the name of the business does not matter.
   */
  lemma RfcHashIff(n: Normaliser, a: Invoice, b: Invoice, fa: Fingerprint, fb: Fingerprint)
    requires IsFingerprint(n, Some(a), fa) && IsFingerprint(n, Some(b), fb)
    requires a.confident && HasText(a.invoiceNumber) && b.confident && HasText(b.invoiceNumber)
    requires RfcOf(n, a.businessRfc) != [] && RfcOf(n, b.businessRfc) != []
    requires '|' !in NormalizeDate(n, a.date) && '|' !in NormalizeDate(n, b.date)
    ensures fa.hash == fb.hash <==>
      && RfcOf(n, a.businessRfc) == RfcOf(n, b.businessRfc)
      && NormalizeText(n, a.invoiceNumber) == NormalizeText(n, b.invoiceNumber)
      && NormalizeDate(n, a.date) == NormalizeDate(n, b.date) && a.total == b.total
  {
    TrimKeepsText(a.invoiceNumber);
    TrimKeepsText(b.invoiceNumber);
    RfcTicketInjective(n, a, b);
    AmountInjective(a.total, b.total);
  }

  lemma {:induction false} AlphanumericsAll(s: string)
    requires forall c <- s :: IsAlphanumeric(c)
    ensures Alphanumerics(s) == s
  {
    if s != [] {
      AlphanumericsAll(s[..|s| - 1]);
    }
  }

  /** An RFC of letters and digits only is folded and otherwise kept. */
  lemma RfcKeepsLetters(n: Normaliser, s: string)
    requires SpacesAreNoise(n) && forall c <- s :: IsAlphanumeric(n.lower(c))
    ensures RfcOf(n, s) == Lower(n, s)
  {
    RfcUntrimmed(n, s);
    AlphanumericsAll(Lower(n, s));
  }

  // ---------- spacing inside a text ----------

  predicate PatternSpaces(s: string) {
    s != [] && forall c <- s :: IsPatternSpace(c)
  }

  lemma {:induction false} CollapseGap(gap: string, b: string)
    requires PatternSpaces(gap) && b != [] && !IsPatternSpace(b[0])
    ensures Collapse(gap + b) == " " + Collapse(b)
  {
    assert (gap + b)[1..] == gap[1..] + b;
    if |gap| > 1 {
      assert (gap + b)[1] == gap[1];
      CollapseGap(gap[1..], b);
    } else {
      assert gap[1..] + b == b;
    }
  }

  /** A gap between two texts counts as one space, however wide it is and of whatever white space. */
  lemma {:induction false} CollapseAround(a: string, gap: string, b: string)
    requires a != [] && !IsPatternSpace(a[|a| - 1]) && PatternSpaces(gap) && b != [] && !IsPatternSpace(b[0])
    ensures Collapse(a + gap + b) == Collapse(a) + " " + Collapse(b)
  {
    var all := a + gap + b;
    if |a| == 1 {
      assert all[1..] == gap + b && Collapse(a) == a;
      CollapseGap(gap, b);
    } else {
      assert all[1..] == a[1..] + gap + b && all[0] == a[0] && all[1] == a[1];
      CollapseAround(a[1..], gap, b);
    }
  }

  /** Text with nothing to trim, in words of which the outer characters are not white space. */
  predicate Bounded(s: string) {
    s != [] && !IsSpace(s[0]) && !IsSpace(s[|s| - 1])
  }

  /** The canonical text does not depend on how wide the gaps between its words are, or on space around it. */
  lemma TextIgnoresSpacing(n: Normaliser, front: string, a: string, gap: string, b: string, back: string)
    requires Lawful(n) && PatternSpaces(gap)
    requires Bounded(Lower(n, a)) && Bounded(Lower(n, b))
    requires (forall c <- Lower(n, front) :: IsSpace(c)) && (forall c <- Lower(n, back) :: IsSpace(c))
    ensures NormalizeText(n, front + a + gap + b + back) == NormalizeText(n, a) + " " + NormalizeText(n, b)
  {
    var (fa, fb) := (Lower(n, a), Lower(n, b));
    assert Lower(n, gap) == gap by {
      forall i | 0 <= i < |gap| ensures n.lower(gap[i]) == gap[i] {
        assert gap[i] in gap;
      }
    }
    var core := fa + gap + fb;
    assert Lower(n, front + a + gap + b + back) == Lower(n, front) + core + Lower(n, back);
    TrimAround(Lower(n, front), core, Lower(n, back));
    TrimFixed(fa);
    TrimFixed(fb);
    CollapseAround(fa, gap, fb);
  }

  lemma TrimAround(front: string, core: string, back: string)
    requires Bounded(core) && (forall c <- front :: IsSpace(c)) && (forall c <- back :: IsSpace(c))
    ensures TrimSpace(front + core + back) == core
  {
    assert front + core + back == front + (core + back);
    TrimFront(front, core + back);
    TrimBack(core, back);
  }

  lemma {:induction false} TrimFront(front: string, s: string)
    requires s != [] && !IsSpace(s[0]) && forall c <- front :: IsSpace(c)
    ensures TrimLeft(front + s) == s
  {
    if front == [] {
      assert front + s == s;
    } else {
      assert front[0] in front && (front + s)[1..] == front[1..] + s;
      TrimFront(front[1..], s);
    }
  }

  lemma {:induction false} TrimBack(s: string, back: string)
    requires s != [] && !IsSpace(s[|s| - 1]) && forall c <- back :: IsSpace(c)
    ensures TrimRight(s + back) == s
  {
    if back == [] {
      assert s + back == s;
    } else {
      var n := |back| - 1;
      assert back[n] in back && (s + back)[..|s + back| - 1] == s + back[..n];
      TrimBack(s, back[..n]);
    }
  }
}
