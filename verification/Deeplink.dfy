/**
 Deep links: the message a business prints behind its QR code, and how an incoming message is
 read back into the business it names. Characters are bytes of UTF-8; case folding is a
 parameter, known only on ASCII, for it may change the length of other text.
 */
module Deeplink {
  import opened Wrappers

  const GREETING := "Hola! Quiero "
  const MARKER := "unirme a "
  const TOKEN := "unirme:"

  function Print(name: string): string {
    GREETING + MARKER + name
  }

  predicate At(text: string, part: string, i: nat) {
    i + |part| <= |text| && forall k :: 0 <= k < |part| ==> text[i + k] == part[k]
  }

  /** The part occurs nowhere. */
  predicate Free(s: string, part: string) {
    forall k :: 0 <= k <= |s| ==> !At(s, part, k)
  }

  /** Where the part first occurs. */
  function Index(text: string, part: string): (r: Option<nat>)
    ensures r.Some? ==> r.value + |part| <= |text|
  {
    if At(text, part, 0) then Some(0)
    else if text == [] then None
    else
      var r := Index(text[1..], part);
      if r.Some? then Some(r.value + 1) else None
  }

  lemma {:induction false} IndexIsFirst(text: string, part: string)
    ensures var r := Index(text, part);
      && (r.Some? ==> At(text, part, r.value) && forall j :: 0 <= j < r.value ==> !At(text, part, j))
      && (r.None? ==> Free(text, part))
  {
    if !At(text, part, 0) && text != [] {
      IndexIsFirst(text[1..], part);
      ShiftedAt(text, part);
      var r := Index(text[1..], part);
      if r.None? {
        forall j | 0 <= j <= |text| ensures !At(text, part, j) {
          assert j > 0 ==> At(text, part, j) == At(text[1..], part, j - 1);
        }
      }
    }
  }

  lemma ShiftedAt(text: string, part: string)
    requires text != []
    ensures forall j :: 1 <= j <= |text| ==> At(text, part, j) == At(text[1..], part, j - 1)
  {}

  lemma IndexUnique(text: string, part: string, i: nat)
    requires At(text, part, i) && forall j :: 0 <= j < i ==> !At(text, part, j)
    ensures Index(text, part) == Some(i)
  {
    IndexIsFirst(text, part);
    assert i <= |text|;
  }

  // ---------- white space ----------

  predicate IsSpace1(a: char) {
    a == ' ' || '\t' <= a <= '\r'
  }

  predicate IsSpace2(a: char, b: char) {
    a == '\U{C2}' && (b == '\U{85}' || b == '\U{A0}')
  }

  predicate IsSpace3(a: char, b: char, c: char) {
    || (a == '\U{E1}' && b == '\U{9A}' && c == '\U{80}')
    || (a == '\U{E2}' && b == '\U{80}'
      && ('\U{80}' <= c <= '\U{8A}' || c == '\U{A8}' || c == '\U{A9}' || c == '\U{AF}'))
    || (a == '\U{E2}' && b == '\U{81}' && c == '\U{9F}')
    || (a == '\U{E3}' && b == '\U{80}' && c == '\U{80}')
  }

  /** How many bytes the space at the front takes; none if there is no space. */
  function SpaceWidth(s: string): (w: nat)
    ensures w <= |s|
  {
    if |s| >= 1 && IsSpace1(s[0]) then 1
    else if |s| >= 2 && IsSpace2(s[0], s[1]) then 2
    else if |s| >= 3 && IsSpace3(s[0], s[1], s[2]) then 3
    else 0
  }

  /** The same at the end. */
  function EndSpaceWidth(s: string): (w: nat)
    ensures w <= |s|
  {
    var n := |s|;
    if n >= 1 && IsSpace1(s[n - 1]) then 1
    else if n >= 2 && IsSpace2(s[n - 2], s[n - 1]) then 2
    else if n >= 3 && IsSpace3(s[n - 3], s[n - 2], s[n - 1]) then 3
    else 0
  }

  function TrimLeft(s: string): (r: string)
    ensures |r| <= |s|
    decreases |s|
  {
    if SpaceWidth(s) > 0 then TrimLeft(s[SpaceWidth(s)..]) else s
  }

  function TrimRight(s: string): (r: string)
    ensures r <= s
    decreases |s|
  {
    if EndSpaceWidth(s) > 0 then TrimRight(s[..|s| - EndSpaceWidth(s)]) else s
  }

  lemma {:induction false} TrimLeftClean(s: string)
    ensures SpaceWidth(TrimLeft(s)) == 0
    decreases |s|
  {
    if SpaceWidth(s) > 0 {
      TrimLeftClean(s[SpaceWidth(s)..]);
    }
  }

  predicate IsSuffix(u: string, s: string) {
    |u| <= |s| && u == s[|s| - |u|..]
  }

  lemma {:induction false} TrimLeftIsSuffix(s: string)
    ensures IsSuffix(TrimLeft(s), s)
    decreases |s|
  {
    var w := SpaceWidth(s);
    if w > 0 {
      TrimLeftIsSuffix(s[w..]);
    }
  }

  lemma {:induction false} TrimRightClean(s: string)
    ensures EndSpaceWidth(TrimRight(s)) == 0
    decreases |s|
  {
    if EndSpaceWidth(s) > 0 {
      TrimRightClean(s[..|s| - EndSpaceWidth(s)]);
    }
  }

  function TrimSpace(s: string): string {
    TrimRight(TrimLeft(s))
  }

  predicate IsBlank(c: char) {
    c == ' ' || c == '\t' || c == '\n' || c == '\r'
  }

  predicate IsMark(c: char) {
    c == '!' || c == '.' || c == '?' || c == ',' || c == ';' || c == ':'
  }

  function CutRight(s: string): (r: string)
    ensures r <= s && (r != [] ==> !IsBlank(r[|r| - 1]) && !IsMark(r[|r| - 1]))
  {
    if s != [] && (IsBlank(s[|s| - 1]) || IsMark(s[|s| - 1])) then CutRight(s[..|s| - 1]) else s
  }

  // ---------- reading a message ----------

  function FirstWord(rest: string): Option<string> {
    var trimmed := TrimSpace(rest);
    var space := Index(trimmed, " ");
    var word := if space.Some? && space.value > 0 then trimmed[..space.value] else trimmed;
    if word == "" then None else Some(word)
  }

  function ExtractUuid(text: string): Option<string> {
    var i := Index(text, TOKEN);
    if i.None? then None else FirstWord(text[i.value + |TOKEN|..])
  }

  /** The marker's place is sought in the folded text and used in the text itself, which may be too short for it. */
  datatype Extracted = Name(name: string) | NoName | OutOfRange

  /** What is left without a legacy token, closing marks and blanks. */
  function Kept(rest: string): (r: string)
    ensures r <= rest
  {
    var i := Index(rest, " " + TOKEN);
    CutRight(if i.Some? then rest[..i.value] else rest)
  }

  function Cleaned(rest: string): Extracted {
    var name := TrimSpace(Kept(rest));
    if name == "" then NoName else Name(name)
  }

  /** What follows the marker, found at `i` in the folded text. */
  function Sliced(text: string, i: nat): Extracted {
    if |text| < i + |MARKER| then OutOfRange else Cleaned(text[i + |MARKER|..])
  }

  function ExtractName(lower: string -> string, text: string): Extracted {
    var i := Index(lower(text), MARKER);
    if i.None? then NoName else Sliced(text, i.value)
  }

  // ---------- case folding ----------

  function LowerAscii(c: char): char {
    if 'A' <= c <= 'Z' then c - 'A' + 'a' else c
  }

  function Lowered(s: string): (r: string)
    ensures |r| == |s| && forall i :: 0 <= i < |s| ==> r[i] == LowerAscii(s[i])
  {
    seq(|s|, i requires 0 <= i < |s| => LowerAscii(s[i]))
  }

  predicate Ascii(s: string) {
    forall i :: 0 <= i < |s| ==> s[i] < '\U{80}'
  }

  ghost predicate Folds(lower: string -> string) {
    lower([]) == [] && forall c: char, s: string :: c < '\U{80}' ==> lower([c] + s) == [LowerAscii(c)] + lower(s)
  }

  lemma {:induction false} FoldsPrefix(lower: string -> string, a: string, s: string)
    requires Folds(lower) && Ascii(a)
    ensures lower(a + s) == Lowered(a) + lower(s)
  {
    if a == [] {
      assert a + s == s;
    } else {
      var (c, b) := (a[0], a[1..]);
      FoldsPrefix(lower, b, s);
      assert a + s == [c] + (b + s);
      assert lower([c] + (b + s)) == [LowerAscii(c)] + lower(b + s);
      assert Lowered(a) == [LowerAscii(c)] + Lowered(b);
    }
  }

  /** After an ASCII greeting, in capitals or not, what follows the marker is what is cleaned up, in any script. */
  lemma AnyGreeting(lower: string -> string, greeting: string, marker: string, rest: string)
    requires Folds(lower) && Ascii(greeting) && Ascii(marker) && Lowered(marker) == MARKER
    requires forall j :: 0 <= j < |greeting| ==> !At(Lowered(greeting + marker), MARKER, j)
    ensures ExtractName(lower, greeting + marker + rest) == Cleaned(rest)
  {
    var (front, text) := (greeting + marker, greeting + marker + rest);
    FoldsPrefix(lower, front, rest);
    var folded := lower(text);
    assert folded == Lowered(front) + lower(rest);
    assert Lowered(front)[|greeting|..] == Lowered(marker);
    forall j | 0 <= j <= |greeting| ensures At(folded, MARKER, j) == At(Lowered(front), MARKER, j) {
      assert forall k :: j <= k < j + |MARKER| ==> folded[k] == Lowered(front)[k];
    }
    assert At(Lowered(front), MARKER, |greeting|);
    IndexUnique(folded, MARKER, |greeting|);
    assert text[|greeting| + |MARKER|..] == rest;
  }

  lemma PrintedIsCleaned(lower: string -> string, name: string)
    requires Folds(lower)
    ensures ExtractName(lower, Print(name)) == Cleaned(name)
  {
    var front := Lowered(GREETING + MARKER);
    forall j | 0 <= j < |GREETING| ensures !At(front, MARKER, j) {
      assert front[j] == MARKER[0] ==> front[j + 1] != MARKER[1];
    }
    assert Lowered(MARKER) == MARKER;
    AnyGreeting(lower, GREETING, MARKER, name);
  }

  // ---------- round trips ----------

  /** A name that comes through: not empty, no space or sentence mark around it, no legacy token after a space. */
  predicate Printable(name: string) {
    name != "" && SpaceWidth(name) == 0 && EndSpaceWidth(name) == 0 && !IsMark(name[|name| - 1])
        && Index(name, " " + TOKEN).None?
  }

  lemma TrimSpaceIdempotent(s: string)
    ensures SpaceWidth(TrimSpace(s)) == 0 && EndSpaceWidth(TrimSpace(s)) == 0
  {
    TrimLeftClean(s);
    TrimRightClean(TrimLeft(s));
    SpaceWidthOfPrefix(TrimSpace(s), TrimLeft(s));
  }

  lemma SpaceWidthOfPrefix(p: string, s: string)
    requires p <= s
    ensures SpaceWidth(p) > 0 ==> SpaceWidth(s) == SpaceWidth(p)
  {}

  lemma TrimSpaceShortens(s: string)
    ensures |TrimSpace(s)| <= |s| && (|TrimSpace(s)| == |s| ==> TrimSpace(s) == s)
  {}

  lemma TrimSpaceFixed(s: string)
    ensures TrimSpace(s) == s <==> SpaceWidth(s) == 0 && EndSpaceWidth(s) == 0
  {
    if TrimSpace(s) == s {
      assert TrimLeft(s) == s;
    }
  }

  lemma CutRightFixed(s: string)
    requires s != []
    ensures CutRight(s) == s <==> !IsBlank(s[|s| - 1]) && !IsMark(s[|s| - 1])
  {}

  lemma KeptFixed(s: string)
    requires s != []
    ensures Kept(s) == s <==> Index(s, " " + TOKEN).None? && !IsBlank(s[|s| - 1]) && !IsMark(s[|s| - 1])
  {
    CutRightFixed(s);
  }

  lemma BlankAtEnd(s: string)
    requires s != [] && EndSpaceWidth(s) == 0
    ensures !IsBlank(s[|s| - 1])
  {}

  lemma CleanedFixed(name: string)
    ensures Cleaned(name) == Name(name) <==> Printable(name)
  {
    if name != [] {
      KeptFixed(name);
      TrimSpaceFixed(name);
      TrimSpaceShortens(Kept(name));
      if Printable(name) {
        BlankAtEnd(name);
      }
    }
  }

  /** What is printed comes back, in any script, exactly for the printable names. */
  lemma RoundTrip(lower: string -> string, name: string)
    requires Folds(lower)
    ensures ExtractName(lower, Print(name)) == Name(name) <==> Printable(name)
  {
    PrintedIsCleaned(lower, name);
    CleanedFixed(name);
  }

  /** A printed message is read as the legacy form exactly when the name itself holds its token. */
  lemma PrintedIsNotLegacy(name: string)
    ensures Index(Print(name), TOKEN).Some? <==> Index(name, TOKEN).Some?
  {
    var front := GREETING + MARKER;
    var text := Print(name);
    forall j | 0 <= j <= |text| ensures At(text, TOKEN, j) <==> j >= |front| && At(name, TOKEN, j - |front|) {
      if j < |front| {
        NoTokenInFront(j);
      } else if j + |TOKEN| <= |text| {
        assert forall k :: j <= k < j + |TOKEN| ==> text[k] == name[k - |front|];
      }
    }
    IndexIsFirst(text, TOKEN);
    IndexIsFirst(name, TOKEN);
    if Index(name, TOKEN).Some? {
      assert At(text, TOKEN, Index(name, TOKEN).value + |front|);
    }
  }

  lemma NoTokenInFront(j: nat)
    requires j < |GREETING + MARKER|
    ensures exists k :: 0 <= k < |TOKEN| && j + k < |GREETING + MARKER| && (GREETING + MARKER)[j + k] != TOKEN[k]
  {
    var front := GREETING + MARKER;
    if front[j] == TOKEN[0] {
      assert j == 7 || j == 13;
      assert front[7 + 1] != TOKEN[1];
      assert front[13 + 6] != TOKEN[6];
    }
  }

  lemma AtSubstring(s: string, part: string, i: nat, j: nat, k: nat)
    requires i <= j <= |s|
    ensures At(s[i..j], part, k) ==> At(s, part, i + k)
  {
    forall m | 0 <= m < |part| && At(s[i..j], part, k) ensures s[i + k + m] == part[m] {
      assert s[i..j][k + m] == part[m];
    }
  }

  lemma FreeSubstring(s: string, part: string, i: nat, j: nat)
    requires i <= j <= |s| && Free(s, part)
    ensures Free(s[i..j], part)
  {
    forall k | 0 <= k <= j - i ensures !At(s[i..j], part, k) {
      AtSubstring(s, part, i, j, k);
    }
  }

  /** Nothing of the part is left before its first occurrence. */
  lemma FreeBeforeFirst(s: string, part: string)
    requires part != [] && Index(s, part).Some?
    ensures Free(s[..Index(s, part).value], part)
  {
    var i := Index(s, part).value;
    IndexIsFirst(s, part);
    forall k | 0 <= k <= i ensures !At(s[..i], part, k) {
      AtSubstring(s, part, 0, i, k);
      assert s[0..i] == s[..i];
    }
  }

  lemma KeptIsFree(rest: string)
    ensures Free(Kept(rest), " " + TOKEN)
  {
    var i := Index(rest, " " + TOKEN);
    if i.Some? {
      FreeBeforeFirst(rest, " " + TOKEN);
    }
    var before := if i.Some? then rest[..i.value] else rest;
    FreeIsNone(rest, " " + TOKEN);
    FreeSubstring(before, " " + TOKEN, 0, |Kept(rest)|);
    assert before[0..|Kept(rest)|] == Kept(rest);
  }

  lemma PieceIsFree(s: string, part: string, u: string, r: string)
    requires Free(s, part) && IsSuffix(u, s) && r <= u
    ensures Free(r, part)
  {
    var i := |s| - |u|;
    FreeSubstring(s, part, i, i + |r|);
    assert s[i..i + |r|] == r;
  }

  lemma FreeIsNone(s: string, part: string)
    ensures Free(s, part) <==> Index(s, part).None?
  {
    IndexIsFirst(s, part);
  }

  lemma RestOf(lower: string -> string, text: string) returns (rest: string)
    requires ExtractName(lower, text).Name?
    ensures IsSuffix(rest, text)
    ensures ExtractName(lower, text) == Cleaned(rest) == Name(TrimSpace(Kept(rest)))
    ensures TrimSpace(Kept(rest)) != ""
  {
    rest := text[Index(lower(text), MARKER).value + |MARKER|..];
  }

  /** A name once extracted is printed and extracted unchanged, exactly when it does not end in a sentence mark. */
  lemma ExtractedIsFixed(lower: string -> string, text: string, name: string)
    requires Folds(lower) && ExtractName(lower, text) == Name(name)
    ensures name != "" && (ExtractName(lower, Print(name)) == Name(name) <==> !IsMark(name[|name| - 1]))
  {
    var rest := RestOf(lower, text);
    KeptIsFree(rest);
    TrimLeftIsSuffix(Kept(rest));
    PieceIsFree(Kept(rest), " " + TOKEN, TrimLeft(Kept(rest)), name);
    FreeIsNone(name, " " + TOKEN);
    TrimSpaceIdempotent(Kept(rest));
    RoundTrip(lower, name);
  }

  /** No white space but space, tab, carriage return and line feed. */
  predicate PlainlySpaced(s: string) {
    && (forall i :: 0 <= i < |s| ==> IsSpace1(s[i]) ==> IsBlank(s[i]))
    && (forall i :: 1 <= i < |s| ==> !IsSpace2(s[i - 1], s[i]))
    && (forall i :: 2 <= i < |s| ==> !IsSpace3(s[i - 2], s[i - 1], s[i]))
  }

  lemma PlainSubstring(s: string, i: nat, j: nat)
    requires PlainlySpaced(s) && i <= j <= |s|
    ensures PlainlySpaced(s[i..j])
  {}

  lemma NothingLeftToTrim(s: string)
    requires PlainlySpaced(s) && s != [] && !IsBlank(s[|s| - 1])
    ensures EndSpaceWidth(s) == 0
  {}

  lemma PlainSuffix(u: string, s: string)
    requires PlainlySpaced(s) && IsSuffix(u, s)
    ensures PlainlySpaced(u) && (u != [] ==> u[|u| - 1] == s[|s| - 1])
  {
    PlainSubstring(s, |s| - |u|, |s|);
    assert u == s[|s| - |u|..|s|];
  }

  lemma PlainTrimKeepsEnd(s: string)
    requires PlainlySpaced(s) && TrimSpace(s) != [] && !IsBlank(s[|s| - 1])
    ensures TrimSpace(s)[|TrimSpace(s)| - 1] == s[|s| - 1]
  {
    var u := TrimLeft(s);
    TrimLeftIsSuffix(s);
    PlainSuffix(u, s);
    NothingLeftToTrim(u);
  }

  lemma PlainPrefix(p: string, s: string)
    requires PlainlySpaced(s) && p <= s
    ensures PlainlySpaced(p)
  {
    PlainSubstring(s, 0, |p|);
    assert p == s[0..|p|];
  }

  lemma KeptEnd(rest: string)
    ensures var kept := Kept(rest); kept != "" ==> !IsBlank(kept[|kept| - 1]) && !IsMark(kept[|kept| - 1])
  {}

  lemma PlainCleanedEnd(text: string, rest: string)
    requires PlainlySpaced(text) && IsSuffix(rest, text)
    ensures var name := TrimSpace(Kept(rest)); name != "" ==> !IsMark(name[|name| - 1])
  {
    var kept := Kept(rest);
    PlainSuffix(rest, text);
    PlainPrefix(kept, rest);
    KeptEnd(rest);
    if TrimSpace(kept) != "" {
      PlainTrimKeepsEnd(kept);
    }
  }

  lemma PlainNameEnd(lower: string -> string, text: string, name: string)
    requires PlainlySpaced(text) && ExtractName(lower, text) == Name(name)
    ensures name != "" && !IsMark(name[|name| - 1])
  {
    var rest := RestOf(lower, text);
    PlainCleanedEnd(text, rest);
  }

  /** In plainly spaced text it never does, so there extraction is a fixed point. */
  lemma PlainExtractedIsFixed(lower: string -> string, text: string, name: string)
    requires Folds(lower) && PlainlySpaced(text) && ExtractName(lower, text) == Name(name)
    ensures ExtractName(lower, Print(name)) == Name(name)
  {
    ExtractedIsFixed(lower, text, name);
    PlainNameEnd(lower, text, name);
  }

  lemma TrimOneByte(s: string)
    requires SpaceWidth(s) == 0 && EndSpaceWidth(s) == 1 && EndSpaceWidth(s[..|s| - 1]) == 0
    ensures TrimSpace(s) == s[..|s| - 1]
  {
    assert TrimLeft(s) == s && TrimRight(s[..|s| - 1]) == s[..|s| - 1];
  }

  lemma VerticalTabCleaned()
    ensures Cleaned("Foo!\U{0B}") == Name("Foo!")
  {
    var s := "Foo!\U{0B}";
    NoTokenIn(s);
    KeptFixed(s);
    assert s[..4] == "Foo!";
    TrimOneByte(s);
  }

  /** A vertical tab, which is trimmed after the marks are cut, leaves one behind. */
  lemma VerticalTabLeavesMark(lower: string -> string)
    requires Folds(lower)
    ensures ExtractName(lower, Print("Foo!\U{0B}")) == Name("Foo!")
    ensures ExtractName(lower, Print("Foo!")) != Name("Foo!")
  {
    VerticalTabCleaned();
    PrintedIsCleaned(lower, "Foo!\U{0B}");
    RoundTrip(lower, "Foo!");
  }

  lemma NoTokenIn(s: string)
    requires |s| < |TOKEN| + 1
    ensures Index(s, " " + TOKEN).None?
  {}

  // ---------- slicing at the wrong byte ----------

  /** Folding works letter by letter: after these bytes it starts afresh. */
  ghost predicate FoldsApart(lower: string -> string, front: string) {
    forall s :: lower(front + s) == lower(front) + lower(s)
  }

  lemma MarkerAfter(lower: string -> string, front: string, marker: string, rest: string)
    requires Folds(lower) && FoldsApart(lower, front) && Ascii(marker) && Lowered(marker) == MARKER
    requires forall j :: 0 <= j < |lower(front)| ==> !At(lower(front + (marker + rest)), MARKER, j)
    ensures Index(lower(front + (marker + rest)), MARKER) == Some(|lower(front)|)
  {
    var folded := lower(front + (marker + rest));
    FoldsPrefix(lower, marker, rest);
    assert folded == lower(front) + (MARKER + lower(rest));
    assert At(folded, MARKER, |lower(front)|);
    IndexUnique(folded, MARKER, |lower(front)|);
  }

  lemma SuffixOfLength(s: string, front: string, rest: string, start: nat)
    requires s == front + rest && start <= |s|
    ensures s[start..] == rest <==> start == |front|
  {
    assert |s[start..]| == |s| - start;
    assert s[|front|..] == rest;
  }

  /**
   With the marker first behind any text, in any script: the slice leaves its range exactly when
   folding lengthens that text by more than what follows the marker; and otherwise it starts
   right behind the marker exactly when folding keeps the text's length.
   */
  lemma SliceIffLengthKept(lower: string -> string, front: string, marker: string, rest: string)
    requires Folds(lower) && FoldsApart(lower, front) && Ascii(marker) && Lowered(marker) == MARKER
    requires forall j :: 0 <= j < |lower(front)| ==> !At(lower(front + (marker + rest)), MARKER, j)
    ensures var (text, start) := (front + (marker + rest), |lower(front)| + |MARKER|);
      && (ExtractName(lower, text).OutOfRange? <==> |lower(front)| > |front| + |rest|)
      && (|lower(front)| <= |front| + |rest| ==>
          ExtractName(lower, text) == Cleaned(text[start..]) && (text[start..] == rest <==> |lower(front)| == |front|))
  {
    MarkerAfter(lower, front, marker, rest);
    var text := front + (marker + rest);
    ExtractedAt(lower, text, |lower(front)|);
    assert |text| == |front| + |MARKER| + |rest|;
    if |lower(front)| + |MARKER| <= |text| {
      assert text == (front + marker) + rest;
      SuffixOfLength(text, front + marker, rest, |lower(front)| + |MARKER|);
    }
  }

  lemma ExtractedAt(lower: string -> string, text: string, i: nat)
    requires Index(lower(text), MARKER) == Some(i)
    ensures ExtractName(lower, text) == Sliced(text, i)
  {}

  /** A letter that takes two bytes and three when folded, as U+023A does, sends it past the end of the bare marker. */
  lemma LongFoldLeavesRange(lower: string -> string)
    requires Folds(lower) && forall s :: lower("\U{C8}\U{BA}" + s) == "\U{E2}\U{B1}\U{A5}" + lower(s)
    ensures ExtractName(lower, "\U{C8}\U{BA}" + MARKER).OutOfRange?
  {
    var text := "\U{C8}\U{BA}" + MARKER;
    var (wide, folded) := ("\U{E2}\U{B1}\U{A5}", lower(text));
    FoldsPrefix(lower, MARKER, []);
    assert MARKER + [] == MARKER && Lowered(MARKER) == MARKER;
    assert folded == wide + MARKER;
    forall j | 0 <= j < 3 ensures !At(folded, MARKER, j) {
      assert folded[j] != MARKER[0];
    }
    assert At(folded, MARKER, 3);
    IndexUnique(folded, MARKER, 3);
  }

  // ---------- the legacy form ----------

  lemma TokenBytesAreNotSpace(s: string, t: string)
    requires s != [] && (t == "" || t[0] == ' ') && SpaceWidth(s) == 0
    ensures SpaceWidth(s + t) == 0
  {}

  /** One step of trimming does not reach back over a space. */
  lemma TrimRightStep(s: string) returns (w: nat)
    requires TrimRight(s) != s
    ensures 0 < w <= |s| && TrimRight(s) == TrimRight(s[..|s| - w])
    ensures forall i :: |s| - w < i < |s| ==> s[i] != ' '
  {
    w := EndSpaceWidth(s);
  }

  /** Trimming the end stops at a space or goes on from before it. */
  lemma {:induction false} TrimRightStops(s: string, i: nat)
    requires i < |s| && s[i] == ' '
    ensures i < |TrimRight(s)| || TrimRight(s) == TrimRight(s[..i])
    decreases |s|
  {
    if TrimRight(s) != s {
      var w := TrimRightStep(s);
      var t := s[..|s| - w];
      if i < |t| {
        TrimRightStops(t, i);
        assert t[..i] == s[..i];
      }
    }
  }

  lemma TrimKeeps(id: string, tail: string)
    requires id != [] && SpaceWidth(id) == 0 && EndSpaceWidth(id) == 0 && (tail == "" || tail[0] == ' ')
    ensures TrimSpace(id + tail) == id || id + " " <= TrimSpace(id + tail)
  {
    var s := id + tail;
    TokenBytesAreNotSpace(id, tail);
    assert TrimSpace(s) == TrimRight(s);
    if tail == "" {
      assert s == id;
    } else {
      TrimRightStops(s, |id|);
      assert s[..|id|] == id && s[|id|] == ' ';
    }
  }

  lemma FirstSpace(id: string, rest: string)
    requires ' ' !in id && (rest == id || id + " " <= rest)
    ensures Index(rest, " ") == if rest == id then None else Some(|id|)
  {
    SpaceIsByte(rest);
    if rest == id {
      IndexIsFirst(rest, " ");
    } else {
      assert rest[|id|] == (id + " ")[|id|];
      assert forall j :: 0 <= j < |id| ==> rest[j] == id[j];
      IndexUnique(rest, " ", |id|);
    }
  }

  lemma SpaceIsByte(s: string)
    ensures forall j :: 0 <= j <= |s| ==> (At(s, " ", j) <==> j < |s| && s[j] == ' ')
  {
    forall j | 0 <= j <= |s| ensures At(s, " ", j) <==> j < |s| && s[j] == ' ' {
      assert At(s, " ", j) ==> s[j + 0] == " "[0];
    }
  }

  lemma FirstWordIsId(id: string, tail: string)
    requires id != "" && ' ' !in id && SpaceWidth(id) == 0 && EndSpaceWidth(id) == 0
    requires tail == "" || tail[0] == ' '
    ensures FirstWord(id + tail) == Some(id)
  {
    TrimKeeps(id, tail);
    var trimmed := TrimSpace(id + tail);
    FirstSpace(id, trimmed);
    assert trimmed[..|id|] == id;
  }

  /** An identifier behind the token comes back whole, at the end of the message or before a space. */
  lemma LegacyRoundTrip(front: string, id: string, tail: string)
    requires Index(front + TOKEN, TOKEN) == Some(|front|)
    requires id != "" && ' ' !in id && SpaceWidth(id) == 0 && EndSpaceWidth(id) == 0
    requires tail == "" || tail[0] == ' '
    ensures ExtractUuid(front + TOKEN + (id + tail)) == Some(id)
  {
    var text := front + TOKEN + (id + tail);
    FirstStaysFirst(front + TOKEN, text, TOKEN);
    assert text[|front| + |TOKEN|..] == id + tail;
    FirstWordIsId(id, tail);
  }

  lemma FirstStaysFirst(s: string, t: string, part: string)
    requires s <= t && Index(s, part).Some?
    ensures Index(t, part) == Index(s, part)
  {
    var i := Index(s, part).value;
    IndexIsFirst(s, part);
    forall j | 0 <= j <= i ensures At(t, part, j) == At(s, part, j) {
      assert forall k :: j <= k < j + |part| ==> t[k] == s[k];
    }
    IndexUnique(t, part, i);
  }

  // ---------- resolving a message to a business ----------

  datatype Business = Business(customerId: string, name: string)

  datatype Customer = Customer(id: string, name: string, active: bool)

  /**
   Customers by age. `fold` is the database's case folding; the other lookups are as they answer when
   the message arrives.
   */
  datatype Directory = Directory(
    customers: seq<Customer>, fold: string -> string, knows: (string, string) -> bool, byPhone: string -> seq<Business>)

  /** The database trims plain spaces only. */
  function TrimBlanks(s: string): string
    decreases |s|
  {
    if s == [] then []
    else if s[0] == ' ' then TrimBlanks(s[1..])
    else if s[|s| - 1] == ' ' then TrimBlanks(s[..|s| - 1])
    else s
  }

  function Canonical(d: Directory, name: string): string {
    d.fold(TrimBlanks(name))
  }

  predicate Matches(d: Directory, name: string, c: Customer) {
    c.active && Canonical(d, c.name) == Canonical(d, name)
  }

  /** The active customers of that name, but for case and outer spaces. */
  function Namesakes(d: Directory, customers: seq<Customer>, name: string): (r: seq<Business>)
    ensures forall b :: b in r <==> exists c <- customers :: Matches(d, name, c) && b == Business(c.id, c.name)
  {
    if customers == [] then []
    else
      var (init, c) := (customers[..|customers| - 1], customers[|customers| - 1]);
      assert customers == init + [c];
      Namesakes(d, init, name) + if Matches(d, name, c) then [Business(c.id, c.name)] else []
  }

  function ActiveName(customers: seq<Customer>, id: string): string {
    if customers == [] then ""
    else if customers[0].id == id && customers[0].active then customers[0].name
    else ActiveName(customers[1..], id)
  }

  datatype Resolution =
    | Found(business: Business, isNew: bool)
    | Choose(options: seq<Business>)
    | NotRegistered
    | Crashed

  function ByPhone(d: Directory, phone: string): Resolution {
    var options := d.byPhone(phone);
    if |options| == 0 then NotRegistered
    else if |options| == 1 then Found(options[0], false)
    else Choose(options)
  }

  function ById(d: Directory, phone: string, id: string): Resolution {
    var name := ActiveName(d.customers, id);
    if name == "" then NotRegistered else Found(Business(id, name), !d.knows(phone, id))
  }

  function ByName(d: Directory, phone: string, name: string): Resolution {
    var matches := Namesakes(d, d.customers, name);
    if |matches| == 0 then NotRegistered
    else if |matches| == 1 then Found(matches[0], !d.knows(phone, matches[0].customerId))
    else Choose(matches)
  }

  function Resolve(lower: string -> string, d: Directory, phone: string, text: string): Resolution {
    var id := ExtractUuid(text);
    if id.Some? then ById(d, phone, id.value)
    else
      match ExtractName(lower, text)
      case OutOfRange => Crashed
      case NoName => ByPhone(d, phone)
      case Name(name) =>
        var r := ByName(d, phone, name);
        if r == NotRegistered then ByPhone(d, phone) else r
  }

  /** Nothing but plain spaces. */
  predicate Blanks(s: string) {
    forall i :: 0 <= i < |s| ==> s[i] == ' '
  }

  lemma {:induction false} TrimBlanksOff(l: string, name: string, r: string)
    requires Blanks(l) && Blanks(r) && name != "" && name[0] != ' ' && name[|name| - 1] != ' '
    ensures TrimBlanks(l + name + r) == name
    decreases |l| + |r|
  {
    var s := l + name + r;
    if l != "" {
      assert s[1..] == l[1..] + name + r;
      TrimBlanksOff(l[1..], name, r);
    } else if r != "" {
      assert s[0] == name[0] && s[..|s| - 1] == l + name + r[..|r| - 1];
      TrimBlanksOff(l, name, r[..|r| - 1]);
    } else {
      assert s == name;
    }
  }

  lemma {:induction false} TrimBlanksParts(s: string) returns (l: string, r: string)
    ensures Blanks(l) && Blanks(r) && s == l + TrimBlanks(s) + r
    decreases |s|
  {
    if s != [] && s[0] == ' ' {
      l, r := TrimBlanksParts(s[1..]);
      l := [' '] + l;
      assert s == [s[0]] + s[1..];
    } else if s != [] && s[|s| - 1] == ' ' {
      l, r := TrimBlanksParts(s[..|s| - 1]);
      assert s == s[..|s| - 1] + [s[|s| - 1]];
      r := r + [' '];
    } else {
      l, r := "", "";
      assert s == "" + s + "";
    }
  }

  lemma {:induction false} CutBlanksOff(s: string, r: string)
    requires Blanks(r) && CutRight(s) == s
    ensures CutRight(s + r) == s
  {
    if r == "" {
      assert s + r == s;
    } else {
      assert (s + r)[..|s + r| - 1] == s + r[..|r| - 1];
      CutBlanksOff(s, r[..|r| - 1]);
    }
  }

  lemma {:induction false} TrimLeftBlanks(l: string, s: string)
    requires Blanks(l) && SpaceWidth(s) == 0
    ensures TrimLeft(l + s) == s
  {
    if l == "" {
      assert l + s == s;
    } else {
      assert (l + s)[1..] == l[1..] + s && (l + s)[0] == ' ';
      TrimLeftBlanks(l[1..], s);
    }
  }

  lemma PaddedIsKept(l: string, name: string, r: string)
    requires Blanks(l) && Blanks(r) && Printable(name) && Index(l + name + r, " " + TOKEN).None?
    ensures Kept(l + name + r) == l + name
  {
    BlankAtEnd(name);
    var s := l + name;
    assert s[|s| - 1] == name[|name| - 1];
    CutRightFixed(s);
    CutBlanksOff(s, r);
  }

  /** Plain spaces around a printable name are dropped, unless they set a legacy token apart. */
  lemma PaddedIsCleaned(l: string, name: string, r: string)
    requires Blanks(l) && Blanks(r) && Printable(name) && Index(l + name + r, " " + TOKEN).None?
    ensures Cleaned(l + name + r) == Name(name)
  {
    PaddedIsKept(l, name, r);
    TrimLeftBlanks(l, name);
  }

  lemma TokenBehindSpace(s: string)
    requires Index(s, TOKEN).None?
    ensures Index(s, " " + TOKEN).None?
  {
    IndexIsFirst(s, TOKEN);
    IndexIsFirst(s, " " + TOKEN);
    forall i | 0 <= i <= |s| ensures At(s, " " + TOKEN, i) ==> At(s, TOKEN, i + 1) {
      assert forall k :: 0 <= k < |TOKEN| ==> TOKEN[k] == (" " + TOKEN)[1 + k];
      assert forall k :: 1 <= k <= |TOKEN| ==> (" " + TOKEN)[k] == TOKEN[k - 1];
    }
  }

  lemma PrintedGoesByName(lower: string -> string, d: Directory, phone: string, name: string)
    requires Folds(lower) && Printable(TrimBlanks(name)) && Index(name, TOKEN).None?
    ensures var r := ByName(d, phone, TrimBlanks(name));
      Resolve(lower, d, phone, Print(name)) == if r == NotRegistered then ByPhone(d, phone) else r
  {
    var l, r := TrimBlanksParts(name);
    PrintedIsCleaned(lower, name);
    PrintedIsNotLegacy(name);
    TokenBehindSpace(name);
    PaddedIsCleaned(l, TrimBlanks(name), r);
  }

  /** The business itself, or a choice among its namesakes with it. */
  ghost predicate IsOwnOrChoice(d: Directory, phone: string, c: Customer, r: Resolution) {
    match r
    case Found(b, isNew) => b == Business(c.id, c.name) && isNew == !d.knows(phone, c.id)
    case Choose(options) => |options| > 1 && Business(c.id, c.name) in options &&
      forall b <- options :: exists e <- d.customers :: Matches(d, c.name, e) && b == Business(e.id, e.name)
    case _ => false
  }

  lemma TrimBlanksTwice(s: string)
    ensures TrimBlanks(TrimBlanks(s)) == TrimBlanks(s)
    decreases |s|
  {
    if s != [] && s[0] == ' ' {
      TrimBlanksTwice(s[1..]);
    } else if s != [] && s[|s| - 1] == ' ' {
      TrimBlanksTwice(s[..|s| - 1]);
    }
  }

  lemma NameFindsOwn(d: Directory, phone: string, c: Customer)
    requires c in d.customers && c.active
    ensures IsOwnOrChoice(d, phone, c, ByName(d, phone, TrimBlanks(c.name)))
  {
    var name := TrimBlanks(c.name);
    TrimBlanksTwice(c.name);
    var matches := Namesakes(d, d.customers, name);
    assert Matches(d, name, c) && Business(c.id, c.name) in matches;
    forall b <- matches ensures exists e <- d.customers :: Matches(d, c.name, e) && b == Business(e.id, e.name) {
      var e :| e in d.customers && Matches(d, name, e) && b == Business(e.id, e.name);
      assert Matches(d, c.name, e);
    }
  }

  /**
   An active business's own printed message finds it when its name, but for outer plain spaces,
   is printable and holds no legacy token: alone, or for the client to choose among its
   namesakes, who differ from it at most in case and outer spaces.
   */
  lemma PrintedReachesItsBusiness(lower: string -> string, d: Directory, phone: string, c: Customer)
    requires Folds(lower) && c in d.customers && c.active
    requires Printable(TrimBlanks(c.name)) && Index(c.name, TOKEN).None?
    ensures IsOwnOrChoice(d, phone, c, Resolve(lower, d, phone, Print(c.name)))
  {
    PrintedGoesByName(lower, d, phone, c.name);
    NameFindsOwn(d, phone, c);
  }

  lemma {:induction false} ActiveNameIs(customers: seq<Customer>, id: string)
    requires forall c, e :: c in customers && e in customers && c.id == e.id ==> c == e
    ensures forall c <- customers :: c.id == id && c.active ==> ActiveName(customers, id) == c.name
    ensures (forall c <- customers :: !(c.id == id && c.active)) ==> ActiveName(customers, id) == ""
  {
    if customers != [] {
      assert customers == [customers[0]] + customers[1..];
      assert forall c <- customers[1..] :: c in customers;
      ActiveNameIs(customers[1..], id);
    }
  }

  /**
   A legacy message reaches the active business with that identifier, whatever else it says, and
   says whether the client is new there. An unknown, inactive or nameless business is not found.
   */
  lemma LegacyReachesItsBusiness(lower: string -> string, d: Directory, phone: string, front: string, id: string,
      tail: string)
    requires Index(front + TOKEN, TOKEN) == Some(|front|)
    requires id != "" && ' ' !in id && SpaceWidth(id) == 0 && EndSpaceWidth(id) == 0
    requires tail == "" || tail[0] == ' '
    requires forall c, e :: c in d.customers && e in d.customers && c.id == e.id ==> c == e
    ensures var r := Resolve(lower, d, phone, front + TOKEN + (id + tail));
      && (forall c <- d.customers :: c.id == id && c.active && c.name != "" ==>
          r == Found(Business(id, c.name), !d.knows(phone, id)))
      && ((forall c <- d.customers :: !(c.id == id && c.active && c.name != "")) ==> r == NotRegistered)
  {
    LegacyRoundTrip(front, id, tail);
    ActiveNameIs(d.customers, id);
  }

  lemma EmptyOrNot<T>(s: seq<T>)
    ensures s == [] || exists x :: x in s
  {
    if s != [] {
      assert s[0] in s;
    }
  }

  /**
   A message without a legacy token that names no business, or none that is active, goes by the
   client's phone: the one business the client is known at, a choice among several, or none.
   */
  lemma NamelessGoesByPhone(lower: string -> string, d: Directory, phone: string, text: string)
    requires Index(text, TOKEN).None?
    requires match ExtractName(lower, text)
      case NoName => true
      case Name(name) => forall c <- d.customers :: c.active ==> d.fold(TrimBlanks(c.name)) != d.fold(TrimBlanks(name))
      case OutOfRange => false
    ensures var (r, known) := (Resolve(lower, d, phone, text), d.byPhone(phone));
      && (r == NotRegistered <==> known == [])
      && (|known| == 1 ==> r == Found(known[0], false))
      && (|known| > 1 ==> r == Choose(known))
  {
    match ExtractName(lower, text)
    case Name(name) =>
      EmptyOrNot(Namesakes(d, d.customers, name));
    case _ =>
  }
}
