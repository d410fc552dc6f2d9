/**
 Phone numbers as they are looked up: every spelling a number may have been stored under, and
 when two numbers count as the same. Characters are bytes.
 */
module Phone {

  function WithoutSpaces(s: string): string {
    if s == [] then []
    else WithoutSpaces(s[..|s| - 1]) + if s[|s| - 1] == ' ' then [] else [s[|s| - 1]]
  }

  /** The number without spaces and without one leading plus. */
  function Stripped(phone: string): string {
    var s := WithoutSpaces(phone);
    if "+" <= s then s[1..] else s
  }

  predicate IsMobile(p: string) {
    "521" <= p && |p| == 13
  }

  predicate IsNational(p: string) {
    "52" <= p && |p| == 12
  }

  predicate IsLocal(p: string) {
    |p| == 10
  }

  predicate IsOldLocal(p: string) {
    "1" <= p && |p| == 11
  }

  function VariantSet(phone: string): set<string> {
    var p := Stripped(phone);
    if p == "" then {}
    else
      {p}
      + (if IsMobile(p) then {"52" + p[3..], p[3..], "+" + p} else {})
      + (if IsNational(p) then {"521" + p[2..], p[2..], "+" + p} else {})
      + (if IsLocal(p) then {"52" + p, "521" + p} else {})
      + (if IsOldLocal(p) then {"52" + p, "52" + p[1..], p[1..]} else {})
  }

  /** The variants, each once, in no promised order. */
  method Variants(phone: string) returns (r: seq<string>)
    ensures forall v :: v in r <==> v in VariantSet(phone)
    ensures forall i, j :: 0 <= i < j < |r| ==> r[i] != r[j]
  {
    var p := Stripped(phone);
    if p == "" {
      return [];
    }
    var seen := {p};
    if IsMobile(p) {
      seen := seen + {"52" + p[3..]};
      seen := seen + {p[3..]};
      seen := seen + {"+" + p};
    }
    if IsNational(p) {
      seen := seen + {"521" + p[2..]};
      seen := seen + {p[2..]};
      seen := seen + {"+" + p};
    }
    if IsLocal(p) {
      seen := seen + {"52" + p};
      seen := seen + {"521" + p};
    }
    if IsOldLocal(p) {
      seen := seen + {"52" + p};
      seen := seen + {"52" + p[1..]};
      seen := seen + {p[1..]};
    }
    assert seen == VariantSet(phone);
    r := [];
    var todo := seen;
    while todo != {}
      invariant forall v :: v in r <==> v in seen && v !in todo
      invariant todo <= seen
      invariant forall i, j :: 0 <= i < j < |r| ==> r[i] != r[j]
    {
      var v :| v in todo;
      todo := todo - {v};
      r := r + [v];
    }
  }

  ghost predicate Same(a: string, b: string) {
    a != "" && b != "" && exists v :: v in VariantSet(a) && v in VariantSet(b)
  }

  method SameNumber(a: string, b: string) returns (same: bool)
    ensures same <==> Same(a, b)
  {
    if a == "" || b == "" {
      return false;
    }
    var va := Variants(a);
    var vb := Variants(b);
    for i := 0 to |va|
      invariant forall k :: 0 <= k < i ==> va[k] !in vb
    {
      for j := 0 to |vb|
        invariant forall k :: 0 <= k < j ==> va[i] != vb[k]
      {
        if va[i] == vb[j] {
          assert va[i] in VariantSet(a) && va[i] in VariantSet(b);
          return true;
        }
      }
    }
    assert forall v :: v in VariantSet(a) && v in VariantSet(b) ==> v in va && v in vb;
    same := false;
  }

  // ---------- what a number stands for ----------

  /** The ten digits behind a recognised spelling, and the spelling itself otherwise. */
  function Core(p: string): string {
    if IsMobile(p) then p[3..]
    else if IsNational(p) then p[2..]
    else if IsOldLocal(p) then p[1..]
    else p
  }

  /** Nothing but spaces and a plus. */
  predicate Blank(phone: string) {
    Stripped(phone) == ""
  }

  /** A second plus before a thirteen- or twelve-digit spelling: what that spelling has as a variant. */
  predicate Troubles(phone: string) {
    var p := Stripped(phone);
    "+" <= p && (IsMobile(p[1..]) || IsNational(p[1..]))
  }

  predicate Recognised(p: string) {
    IsMobile(p) || IsNational(p) || IsLocal(p) || IsOldLocal(p)
  }

  /** The shapes of every variant that does not start with a plus. */
  lemma VariantShape(phone: string, v: string)
    requires v in VariantSet(phone)
    ensures var p := Stripped(phone);
      || v == p
      || (Recognised(p) && v in {"521" + Core(p), "52" + Core(p), Core(p)})
      || ((IsMobile(p) || IsNational(p)) && v == "+" + p)
  {
    var p := Stripped(phone);
    if IsOldLocal(p) {
      assert p == "1" + p[1..];
      assert "52" + p == "521" + p[1..];
    }
  }

  lemma CoreIsVariant(phone: string)
    requires Stripped(phone) != ""
    ensures Core(Stripped(phone)) in VariantSet(phone)
  {}

  lemma SpellingsOfCore(c: string)
    requires |c| == 10
    ensures Core("521" + c) == c && Core("52" + c) == c && Core(c) == c
  {
    assert ("521" + c)[3..] == c && ("52" + c)[2..] == c;
  }

  /** Every variant stands for the number's core, but for the one that only prefixes a plus. */
  lemma VariantCore(phone: string, v: string)
    requires v in VariantSet(phone)
    ensures var p := Stripped(phone); Core(v) == Core(p) || ((IsMobile(p) || IsNational(p)) && v == "+" + p)
  {
    VariantShape(phone, v);
    if Recognised(Stripped(phone)) {
      SpellingsOfCore(Core(Stripped(phone)));
    }
  }

  /** Only the number itself has the variant that prefixes a plus, or one that is written so. */
  lemma PlusVariantIsOwn(phone: string, q: string)
    requires "+" + q in VariantSet(phone) && (IsMobile(q) || IsNational(q))
    ensures Stripped(phone) == q || Stripped(phone) == "+" + q
  {
    var (p, v) := (Stripped(phone), "+" + q);
    VariantShape(phone, v);
    assert v[0] == '+' && v[1..] == q && ("+" + p)[1..] == p;
    assert ("521" + Core(p))[0] == '5' && ("52" + Core(p))[0] == '5';
    assert Recognised(p) ==> |Core(p)| == 10;
  }

  lemma PlusVariantAgrees(a: string, b: string, v: string)
    requires !Troubles(b) && v in VariantSet(b)
    requires v == "+" + Stripped(a) && (IsMobile(Stripped(a)) || IsNational(Stripped(a)))
    ensures Stripped(a) == Stripped(b)
  {
    PlusVariantIsOwn(b, Stripped(a));
    assert v[1..] == Stripped(a);
  }

  /** Numbers without trouble are the same exactly when they stand for the same core. */
  lemma SameIffCore(a: string, b: string)
    requires !Blank(a) && !Blank(b) && !Troubles(a) && !Troubles(b)
    ensures Same(a, b) <==> Core(Stripped(a)) == Core(Stripped(b))
  {
    CoreIsVariant(a);
    CoreIsVariant(b);
    if Same(a, b) {
      var v :| v in VariantSet(a) && v in VariantSet(b);
      VariantCore(a, v);
      VariantCore(b, v);
      if Core(v) != Core(Stripped(a)) {
        PlusVariantAgrees(a, b, v);
      } else if Core(v) != Core(Stripped(b)) {
        PlusVariantAgrees(b, a, v);
      }
    }
  }

  /** So among them it is an equivalence. */
  lemma SameIsEquivalence(a: string, b: string, c: string)
    requires forall x <- [a, b, c] :: !Blank(x) && !Troubles(x)
    ensures Same(a, a)
    ensures Same(a, b) ==> Same(b, a)
    ensures Same(a, b) && Same(b, c) ==> Same(a, c)
  {
    assert a in [a, b, c] && b in [a, b, c] && c in [a, b, c];
    SameIffCore(a, a);
    SameIffCore(a, b);
    SameIffCore(b, a);
    SameIffCore(b, c);
    SameIffCore(a, c);
  }

  /** A number matches itself exactly when it is not blank; a blank one matches nothing. */
  lemma SelfIffNotBlank(a: string, b: string)
    ensures Same(a, a) <==> !Blank(a)
    ensures Blank(a) ==> !Same(a, b)
  {
    if !Blank(a) {
      CoreIsVariant(a);
    }
  }

  lemma {:induction false} NoSpaces(s: string)
    requires ' ' !in s
    ensures WithoutSpaces(s) == s
  {
    if s != [] {
      NoSpaces(s[..|s| - 1]);
    }
  }

  lemma {:induction false} SpacesGone(s: string)
    ensures ' ' !in WithoutSpaces(s)
  {
    if s != [] {
      SpacesGone(s[..|s| - 1]);
    }
  }

  lemma NothingToStrip(s: string)
    requires s != "" && s[0] != '+' && ' ' !in s
    ensures Stripped(s) == s
  {
    NoSpaces(s);
  }

  /** The other of the two long spellings. */
  function OtherSpelling(q: string): (r: string)
    requires IsMobile(q) || IsNational(q)
    ensures r != q && Core(r) == Core(q) && (IsMobile(r) || IsNational(r))
  {
    SpellingsOfCore(Core(q));
    if IsMobile(q) then "52" + Core(q) else "521" + Core(q)
  }

  lemma LongSpelling(q: string)
    requires (IsMobile(q) || IsNational(q)) && ' ' !in q
    ensures Stripped(q) == q && !Blank(q) && !Troubles(q)
  {
    assert q[0] == '5';
    NothingToStrip(q);
  }

  lemma TroubledIsAlone(a: string)
    requires Troubles(a)
    ensures VariantSet(a) == {Stripped(a)} && ' ' !in Stripped(a)[1..]
  {
    var p := Stripped(a);
    SpacesGone(a);
    assert p[0] == '+';
  }

  /** A troubled number matches its long spelling, and not the other one, which that one matches. */
  lemma TroubledBreaks(a: string) returns (b: string, c: string)
    requires Troubles(a)
    ensures !Blank(b) && !Troubles(b) && !Blank(c) && !Troubles(c)
    ensures Same(a, b) && Same(b, c) && !Same(a, c)
  {
    var p := Stripped(a);
    b := p[1..];
    c := OtherSpelling(b);
    TroubledIsAlone(a);
    assert p == "+" + b;
    LongSpelling(b);
    LongSpelling(c);
    SameIffCore(b, c);
    assert p in VariantSet(a) && p in VariantSet(b);
    assert p[0] == '+' && c[0] == '5';
    if p in VariantSet(c) {
      PlusVariantIsOwn(c, b);
    }
  }

  /** A number that is not blank breaks transitivity among those without trouble exactly when it troubles. */
  lemma BreaksIffTroubles(a: string)
    requires !Blank(a)
    ensures Troubles(a) <==>
      exists b, c :: !Blank(b) && !Troubles(b) && !Blank(c) && !Troubles(c) && Same(a, b) && Same(b, c) && !Same(a, c)
  {
    if Troubles(a) {
      var b, c := TroubledBreaks(a);
    } else {
      forall b, c | !Blank(b) && !Troubles(b) && !Blank(c) && !Troubles(c) && Same(a, b) && Same(b, c)
        ensures Same(a, c) {
        SameIsEquivalence(a, b, c);
      }
    }
  }

  lemma DigitsDoNotTrouble(phone: string)
    requires AllDigits(Stripped(phone))
    ensures !Troubles(phone)
  {
    assert Stripped(phone) != "" ==> Stripped(phone)[0] != '+';
  }

  predicate AllDigits(s: string) {
    forall i :: 0 <= i < |s| ==> '0' <= s[i] <= '9'
  }

  /**
   The ten digits of a number, and each spelling of it with a country code, are looked up under each
   other, whatever spaces and leading plus they are written with; any other number under itself.
   */
  lemma SpellingVariants(phone: string, d: string)
    requires |d| == 10 && AllDigits(d)
    ensures Stripped(phone) == d ==> VariantSet(phone) == {d, "52" + d, "521" + d}
    ensures Stripped(phone) == "52" + d ==> VariantSet(phone) == {d, "52" + d, "521" + d, "+52" + d}
    ensures Stripped(phone) == "521" + d ==> VariantSet(phone) == {d, "52" + d, "521" + d, "+521" + d}
    ensures Stripped(phone) == "1" + d ==> VariantSet(phone) == {d, "1" + d, "52" + d, "521" + d}
  {
    var p := Stripped(phone);
    assert "+" + ("52" + d) == "+52" + d && "+" + ("521" + d) == "+521" + d && "52" + ("1" + d) == "521" + d;
    assert ("52" + d)[2..] == d && ("521" + d)[3..] == d && ("1" + d)[1..] == d;
  }

  /** A number of another shape stands alone, and one of spaces and a plus is never looked up. */
  lemma OtherVariants(phone: string)
    requires var p := Stripped(phone);
      !(|p| == 10 || ("52" <= p && |p| == 12) || ("521" <= p && |p| == 13) || ("1" <= p && |p| == 11))
    ensures VariantSet(phone) == if Stripped(phone) == "" then {} else {Stripped(phone)}
  {}

  /** Spaces anywhere and one plus in front do not matter. */
  lemma SpacesDoNotMatter(a: string, b: string)
    requires ' ' !in b && (b == "" || b[0] != '+')
    requires WithoutSpaces(a) == b || WithoutSpaces(a) == "+" + b
    ensures Stripped(a) == b && VariantSet(a) == VariantSet(b)
  {
    NoSpaces(b);
    OnePlusDropped(WithoutSpaces(a), b);
    OnePlusDropped(b, b);
    SameStripped(a, b);
  }

  lemma OnePlusDropped(s: string, b: string)
    requires (b == "" || b[0] != '+') && (s == b || s == "+" + b)
    ensures (if "+" <= s then s[1..] else s) == b
  {}

  lemma SameStripped(a: string, b: string)
    requires Stripped(a) == Stripped(b)
    ensures VariantSet(a) == VariantSet(b)
  {}
}
