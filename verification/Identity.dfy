/**
 Whether a repeated creation names the stored entity: names and localized texts compared after the
 normalization writes use (entities).
 */
module Identity {
  import opened Lex
  import opened Text
  import opened Sorting

  datatype Name = Name(language: string, kind: string, name: string)

  datatype LocalText = LocalText(language: string, description: string, sortKey: string)

  // ---------------------------------------------------------------- normalization

  /** strings.ToLower, rune by rune; lower is unicode.ToLower. */
  function Lower(s: string, lower: char -> char): string { seq(|s|, i requires 0 <= i < |s| => lower(s[i])) }

  /** The UTF-8 length. */
  function ByteLength(s: string): nat {
    if s == [] then 0 else
      var c := s[0] as int;
      (if c < 0x80 then 1 else if c < 0x800 then 2 else if c < 0x1_0000 then 3 else 4) + ByteLength(s[1..])
  }

  /** normalizeLanguage; None is an error. */
  function NormalLanguage(l: string, lower: char -> char): Option<string> {
    var l := Lower(TrimSpace(l), lower);
    if l == "" || ByteLength(l) > 16 || exists ch <- l :: IsSpace(ch) then None else Some(l)
  }

  /** One name's row, or None when validateNames refuses it on its own. */
  function NormalName(n: Name, lower: char -> char): Option<Name> {
    match NormalLanguage(n.language, lower)
    case None => None
    case Some(language) =>
      var name, kind := TrimSpace(n.name), if n.kind == "" then "alias" else n.kind;
      if name == "" || |name| > 512 || (kind != "name" && kind != "alias") then None
      else Some(Name(language, kind, name))
  }

  /** Two canonical names of one language. */
  predicate Conflict(a: Name, b: Name) {
    a.kind == "name" && b.kind == "name" && a.language == b.language && a.name != b.name
  }

  function Normals(names: seq<Name>, lower: char -> char): set<Option<Name>> { set n <- names :: NormalName(n, lower) }

  function Rows(names: seq<Name>, lower: char -> char): set<Name> {
    set o <- Normals(names, lower) | o.Some? :: o.value
  }

  ghost predicate NamesOk(names: seq<Name>, lower: char -> char) {
    None !in Normals(names, lower) && forall a <- Rows(names, lower), b <- Rows(names, lower) :: !Conflict(a, b)
  }

  method ValidateNames(names: seq<Name>, lower: char -> char) returns (rows: Option<seq<Name>>)
    ensures rows.Some? <==> NamesOk(names, lower)
    ensures rows.Some? ==>
              |rows.value| == |names| &&
              forall i | 0 <= i < |names| :: NormalName(names[i], lower) == Some(rows.value[i])
  {
    hide NormalName;
    var out: seq<Name> := [];
    var canonical: map<string, string> := map[];
    for i := 0 to |names|
      invariant |out| == i && forall k | 0 <= k < i :: NormalName(names[k], lower) == Some(out[k])
      invariant forall k | 0 <= k < i && out[k].kind == "name" ::
                  out[k].language in canonical && canonical[out[k].language] == out[k].name
      invariant forall l <- canonical :: Name(l, "name", canonical[l]) in out
    {
      var row := NormalName(names[i], lower);
      if row.None? {
        assert names[i] in names;
        return None;
      }
      var n := row.value;
      if n.kind == "name" {
        if n.language in canonical && canonical[n.language] != n.name {
          var k :| 0 <= k < i && out[k] == Name(n.language, "name", canonical[n.language]);
          ConflictRefuses(names, k, i, lower);
          return None;
        }
        canonical := canonical[n.language := n.name];
      }
      out := out + [n];
    }
    RowsOfConsistent(names, out, canonical, lower);
    return Some(out);
  }

  lemma ConflictRefuses(names: seq<Name>, i: nat, j: nat, lower: char -> char)
    requires i < |names| && j < |names| && NormalName(names[i], lower).Some? && NormalName(names[j], lower).Some?
    requires Conflict(NormalName(names[i], lower).value, NormalName(names[j], lower).value)
    ensures !NamesOk(names, lower)
  {
    hide NormalName, Conflict;
    assert NormalName(names[i], lower) in Normals(names, lower) && NormalName(names[j], lower) in Normals(names, lower);
    assert NormalName(names[i], lower).value in Rows(names, lower);
    assert NormalName(names[j], lower).value in Rows(names, lower);
  }

  lemma RowsOfConsistent(names: seq<Name>, rows: seq<Name>, canonical: map<string, string>, lower: char -> char)
    requires |rows| == |names| && forall i | 0 <= i < |names| :: NormalName(names[i], lower) == Some(rows[i])
    requires forall r <- rows | r.kind == "name" :: r.language in canonical && canonical[r.language] == r.name
    ensures NamesOk(names, lower)
  {
    RowsAre(names, rows, lower);
  }

  lemma RowsAre(names: seq<Name>, rows: seq<Name>, lower: char -> char)
    requires |rows| == |names| && forall i | 0 <= i < |names| :: NormalName(names[i], lower) == Some(rows[i])
    ensures None !in Normals(names, lower) && Rows(names, lower) == Elements(rows)
  {
    forall r ensures r in Rows(names, lower) <==> r in rows {
      if r in Rows(names, lower) {
        var i :| 0 <= i < |names| && NormalName(names[i], lower) == Some(r);
        assert rows[i] == r;
      }
      if r in rows {
        var i :| 0 <= i < |rows| && rows[i] == r;
        assert NormalName(names[i], lower) in Normals(names, lower);
      }
    }
  }

  // ---------------------------------------------------------------- sameNames

  /** What sameNames sorts by. */
  function SortKey(n: Name): string { n.language + "\0" + n.kind + "\0" + n.name }

  /** sameNames: sort both, drop the given ones' repeats, compare. */
  predicate SameNames(given: seq<Name>, stored: seq<Name>) {
    Compact(Sort(given, SortKey)) == Sort(stored, SortKey)
  }

  predicate NulFree(n: Name) { '\0' !in n.language && '\0' !in n.kind && '\0' !in n.name }

  ghost predicate Distinct<T(!new)>(xs: seq<T>) { forall i, j | 0 <= i < j < |xs| :: xs[i] != xs[j] }

  lemma SortKeyInjective(a: Name, b: Name)
    requires NulFree(a) && NulFree(b) && SortKey(a) == SortKey(b)
    ensures a == b
  {
    assert SortKey(a) == a.language + ['\0'] + (a.kind + "\0" + a.name);
    assert SortKey(b) == b.language + ['\0'] + (b.kind + "\0" + b.name);
    CutJoined(a.language, '\0', a.kind + "\0" + a.name);
    CutJoined(b.language, '\0', b.kind + "\0" + b.name);
    CutJoined(a.kind, '\0', a.name);
    CutJoined(b.kind, '\0', b.name);
  }

  lemma {:induction false} DistinctCount<T(!new)>(xs: seq<T>)
    ensures |Elements(xs)| <= |xs| && (Distinct(xs) <==> |Elements(xs)| == |xs|)
    decreases xs
  {
    if xs != [] {
      var init, last := xs[..|xs| - 1], xs[|xs| - 1];
      DistinctCount(init);
      assert xs == init + [last];
      assert Elements(xs) == Elements(init) + {last};
      if last in init {
        var i :| 0 <= i < |init| && init[i] == last;
        assert xs[i] == xs[|xs| - 1];
      }
    }
  }

  lemma SortKeepsElements(xs: seq<Name>)
    ensures SortedBy(Sort(xs, SortKey), SortKey) && |Sort(xs, SortKey)| == |xs|
    ensures forall x :: x in Sort(xs, SortKey) <==> x in xs
    ensures Distinct(Sort(xs, SortKey)) <==> Distinct(xs)
  {
    SortSorts(xs, SortKey);
    var ys := Sort(xs, SortKey);
    assert |ys| == |multiset(ys)| == |multiset(xs)| == |xs|;
    forall x ensures x in ys <==> x in xs { assert x in multiset(ys) <==> x in multiset(xs); }
    assert Elements(ys) == Elements(xs);
    DistinctCount(xs);
    DistinctCount(ys);
  }

  lemma {:induction false} CompactElements(xs: seq<Name>)
    ensures forall x :: x in Compact(xs) <==> x in xs
    decreases xs
  {
    if |xs| >= 2 {
      CompactElements(xs[1..]);
      assert xs == [xs[0]] + xs[1..];
    }
  }

  lemma StrictIsDistinct(xs: seq<Name>)
    requires Strict(xs, SortKey)
    ensures Distinct(xs)
  {
    forall i, j | 0 <= i < j < |xs| ensures xs[i] != xs[j] { LessIrreflexive(SortKey(xs[i])); }
  }

  /** Sorted and distinct, with keys that tell names apart, is strictly ordered. */
  lemma SortedDistinctIsStrict(xs: seq<Name>)
    requires SortedBy(xs, SortKey) && Distinct(xs) && forall x <- xs :: NulFree(x)
    ensures Strict(xs, SortKey)
  {
    forall i, j | 0 <= i < j < |xs| ensures Less(SortKey(xs[i]), SortKey(xs[j])) {
      assert AtMost(SortKey(xs[i]), SortKey(xs[j]));
      if SortKey(xs[i]) == SortKey(xs[j]) { SortKeyInjective(xs[i], xs[j]); }
    }
  }

  /** Stored text has no NUL. Then sameNames holds exactly when the stored names are distinct and are the
      given names, repeats aside, whatever the given names contain. */
  lemma SameNamesMeaning(given: seq<Name>, stored: seq<Name>)
    requires forall n <- stored :: NulFree(n)
    ensures SameNames(given, stored) <==> Distinct(stored) && Elements(given) == Elements(stored)
  {
    hide SortKey, Sort, Compact;
    var want, have := Sort(given, SortKey), Sort(stored, SortKey);
    SortKeepsElements(given);
    SortKeepsElements(stored);
    CompactElements(want);
    if SameNames(given, stored) || Elements(given) == Elements(stored) {
      forall n | n in given ensures n in stored {
        if SameNames(given, stored) { assert n in want && n in have; } else { assert n in Elements(stored); }
      }
      forall x, y | x in want && y in want && SortKey(x) == SortKey(y) ensures x == y { SortKeyInjective(x, y); }
      CompactSorted(want, SortKey);
      if SameNames(given, stored) {
        StrictIsDistinct(have);
        assert forall n :: n in given <==> n in stored;
      } else if Distinct(stored) {
        SortedDistinctIsStrict(have);
        assert forall n :: n in given <==> n in Elements(stored);
        StrictUnique(Compact(want), have, SortKey);
      }
    }
  }

  // ---------------------------------------------------------------- texts

  /** One text's row. */
  function NormalText(t: LocalText, lower: char -> char): Option<LocalText> {
    match NormalLanguage(t.language, lower)
    case None => None
    case Some(language) =>
      if |t.description| > 20000 || |t.sortKey| > 512 then None
      else Some(LocalText(language, t.description, TrimSpace(t.sortKey)))
  }

  function NormalTexts(text: seq<LocalText>, lower: char -> char): seq<Option<LocalText>> {
    seq(|text|, i requires 0 <= i < |text| => NormalText(text[i], lower))
  }

  function TextRows(text: seq<LocalText>, lower: char -> char): set<LocalText> {
    set o <- NormalTexts(text, lower) | o.Some? :: o.value
  }

  ghost predicate OnePerLanguage(rows: seq<LocalText>) {
    forall i, j | 0 <= i < j < |rows| :: rows[i].language != rows[j].language
  }

  /** Every text is readable, and no two are in one language. */
  ghost predicate Readable(texts: seq<Option<LocalText>>) {
    None !in texts && forall i, j | 0 <= i < j < |texts| :: texts[i].value.language != texts[j].value.language
  }

  ghost predicate TextsOk(text: seq<LocalText>, lower: char -> char) { Readable(NormalTexts(text, lower)) }

  method ValidateText(text: seq<LocalText>, lower: char -> char) returns (rows: Option<seq<LocalText>>)
    ensures rows.Some? <==> TextsOk(text, lower)
    ensures rows.Some? ==>
              && OnePerLanguage(rows.value) && Elements(rows.value) == TextRows(text, lower)
              && |rows.value| == |text|
              && forall i | 0 <= i < |text| :: NormalText(text[i], lower) == Some(rows.value[i])
  {
    hide NormalText, NormalLanguage;
    var out: seq<LocalText> := [];
    var seen: set<string> := {};
    for i := 0 to |text|
      invariant |out| == i && forall k | 0 <= k < i :: NormalText(text[k], lower) == Some(out[k])
      invariant OnePerLanguage(out)
      invariant seen == set r <- out :: r.language
    {
      var language := NormalLanguage(text[i].language, lower);
      var row := NormalText(text[i], lower);
      RowLanguage(text[i], lower);
      if language.None? || language.value in seen || row.None? {
        assert NormalTexts(text, lower)[i] == row;
        if row.Some? {
          var k :| 0 <= k < i && out[k].language == language.value;
          assert NormalTexts(text, lower)[k] == Some(out[k]);
        }
        return None;
      }
      out := out + [row.value];
      seen := seen + {language.value};
    }
    TextRowsAre(text, out, lower);
    return Some(out);
  }

  lemma RowLanguage(t: LocalText, lower: char -> char)
    ensures NormalText(t, lower).Some? ==>
              NormalLanguage(t.language, lower) == Some(NormalText(t, lower).value.language)
  {}

  lemma TextRowsAre(text: seq<LocalText>, rows: seq<LocalText>, lower: char -> char)
    requires |rows| == |text| && forall i | 0 <= i < |text| :: NormalText(text[i], lower) == Some(rows[i])
    ensures Elements(rows) == TextRows(text, lower)
    ensures OnePerLanguage(rows) ==> TextsOk(text, lower)
  {
    hide NormalText;
    var texts := NormalTexts(text, lower);
    assert forall i | 0 <= i < |texts| :: texts[i] == Some(rows[i]);
    forall r ensures r in TextRows(text, lower) <==> r in rows {
      if r in rows {
        var i :| 0 <= i < |rows| && rows[i] == r;
        assert texts[i] in texts;
      }
    }
  }

  // ---------------------------------------------------------------- MatchesIdentity

  /** The stored entity: its names and texts. */
  datatype Entity = Entity(names: seq<Name>, text: seq<LocalText>)

  /** A stored record: no NULs, no name twice, one text per language. */
  ghost predicate StoredOk(d: Entity) {
    (forall n <- d.names :: NulFree(n)) && Distinct(d.names) && OnePerLanguage(d.text)
  }

  /** The given identity, normalized, is the stored one. */
  ghost predicate SameIdentity(d: Entity, names: seq<Name>, text: seq<LocalText>, lower: char -> char) {
    && NamesOk(names, lower) && Rows(names, lower) == Elements(d.names)
    && TextsOk(text, lower) && TextRows(text, lower) == Elements(d.text)
  }

  /** True exactly when the normalized names and texts equal the stored ones. */
  method MatchesIdentity(d: Entity, names: seq<Name>, text: seq<LocalText>, lower: char -> char) returns (same: bool)
    ensures StoredOk(d) ==> (same <==> SameIdentity(d, names, text, lower))
    ensures same ==> NamesOk(names, lower) && TextsOk(text, lower)
  {
    hide NormalName, NormalText, Sort, Compact, SortKey;
    var givenNames := ValidateNames(names, lower);
    if givenNames.None? { return false; }
    RowsAre(names, givenNames.value, lower);
    if StoredOk(d) { SameNamesMeaning(givenNames.value, d.names); }
    if !SameNames(givenNames.value, d.names) { return false; }
    var givenText := ValidateText(text, lower);
    if givenText.None? { return false; }
    ghost var rows := givenText.value;
    LanguagesCount(rows);
    if StoredOk(d) { LanguagesCount(d.text); }
    if |givenText.value| != |d.text| { return false; }
    var stored: map<string, LocalText> := map[];
    for i := 0 to |d.text|
      invariant forall l <- stored :: stored[l] in d.text && stored[l].language == l
      invariant forall t <- d.text[..i] :: t.language in stored
    {
      stored := stored[d.text[i].language := d.text[i]];
    }
    assert d.text[..|d.text|] == d.text;
    if StoredOk(d) { StoredByLanguage(d.text, stored); }
    for i := 0 to |givenText.value|
      invariant StoredOk(d) ==> forall t <- rows[..i] :: t in d.text
    {
      var value := givenText.value[i];
      assert value in rows;
      if value.language !in stored || stored[value.language].description != value.description
        || stored[value.language].sortKey != value.sortKey {
        assert StoredOk(d) ==> value !in d.text;
        assert value in Elements(rows) && (StoredOk(d) ==> value !in Elements(d.text));
        return false;
      }
    }
    assert rows[..|rows|] == rows;
    if StoredOk(d) { SameSizeSame(Elements(rows), Elements(d.text)); }
    return true;
  }

  lemma StoredByLanguage(text: seq<LocalText>, stored: map<string, LocalText>)
    requires OnePerLanguage(text)
    requires forall l <- stored :: stored[l] in text && stored[l].language == l
    requires forall t <- text :: t.language in stored
    ensures forall t <- text :: stored[t.language] == t
  {}

  lemma LanguagesCount(rows: seq<LocalText>)
    requires OnePerLanguage(rows)
    ensures |Elements(rows)| == |rows|
  {
    DistinctCount(rows);
  }

  lemma SameSizeSame(a: set<LocalText>, b: set<LocalText>)
    requires |a| == |b|
    ensures a <= b ==> a == b
  {
    if a <= b {
      assert b == a + (b - a);
      assert |b| == |a| + |b - a|;
    }
  }

  // ---------------------------------------------------------------- invariance

  /** The answer depends only on the set of normalized names and on the normalized texts: the order and the
      repeats of names, and the order of texts, do not matter. */
  lemma OnlyNormalFormsMatter(d: Entity, names: seq<Name>, names': seq<Name>,
                              text: seq<LocalText>, text': seq<LocalText>, lower: char -> char)
    requires Normals(names, lower) == Normals(names', lower)
    requires multiset(NormalTexts(text, lower)) == multiset(NormalTexts(text', lower))
    ensures SameIdentity(d, names, text, lower) == SameIdentity(d, names', text', lower)
  {
    hide NormalName, NormalText;
    var a, b := NormalTexts(text, lower), NormalTexts(text', lower);
    forall o ensures o in a <==> o in b {
      assert o in multiset(a) <==> o in multiset(b);
    }
    if Readable(a) { ReorderedReadable(a, b); }
    if Readable(b) { ReorderedReadable(b, a); }
  }

  lemma ReorderedReadable(a: seq<Option<LocalText>>, b: seq<Option<LocalText>>)
    requires multiset(a) == multiset(b) && Readable(a)
    ensures Readable(b)
  {
    forall o ensures o in a <==> o in b {
      assert o in multiset(a) <==> o in multiset(b);
    }
    assert |a| == |multiset(a)| == |multiset(b)| == |b|;
    assert Elements(a) == Elements(b);
    assert Distinct(a);
    DistinctCount(a);
    DistinctCount(b);
    forall i, j | 0 <= i < j < |b| ensures b[i].value.language != b[j].value.language {
      assert b[i] in a && b[j] in a;
      var p :| 0 <= p < |a| && a[p] == b[i];
      var q :| 0 <= q < |a| && a[q] == b[j];
      assert p != q;
    }
  }

  /** Case mapping leaves white space, and nothing else, white space. */
  ghost predicate KeepsSpace(lower: char -> char) { forall ch :: IsSpace(lower(ch)) <==> IsSpace(ch) }

  lemma {:induction false} LowerTrimLeft(s: string, lower: char -> char)
    requires KeepsSpace(lower)
    ensures Lower(TrimLeft(s), lower) == TrimLeft(Lower(s, lower))
    decreases s
  {
    if s != [] && IsSpace(s[0]) {
      LowerTrimLeft(s[1..], lower);
      assert Lower(s, lower)[1..] == Lower(s[1..], lower);
    }
  }

  lemma {:induction false} LowerTrimRight(s: string, lower: char -> char)
    requires KeepsSpace(lower)
    ensures Lower(TrimRight(s), lower) == TrimRight(Lower(s, lower))
    decreases s
  {
    if s != [] && IsSpace(s[|s| - 1]) {
      LowerTrimRight(s[..|s| - 1], lower);
      assert Lower(s, lower)[..|s| - 1] == Lower(s[..|s| - 1], lower);
    }
  }

  lemma LowerTrimSpace(s: string, lower: char -> char)
    requires KeepsSpace(lower)
    ensures Lower(TrimSpace(s), lower) == TrimSpace(Lower(s, lower))
  {
    LowerTrimLeft(s, lower);
    LowerTrimRight(TrimLeft(s), lower);
  }

  /** s with white space around it. */
  ghost predicate Padded(s: string, padded: string) {
    exists a: string, b: string ::
      (forall ch <- a :: IsSpace(ch)) && (forall ch <- b :: IsSpace(ch)) && padded == a + s + b
  }

  /** The language in another casing, with white space around it. */
  ghost predicate SpellsLanguage(l: string, spelt: string, lower: char -> char) {
    exists language :: Lower(language, lower) == Lower(l, lower) && Padded(language, spelt)
  }

  /** The name with its language and itself spelt differently, and an alias kind given or omitted. */
  ghost predicate SpellsName(n: Name, spelt: Name, lower: char -> char) {
    && SpellsLanguage(n.language, spelt.language, lower) && Padded(n.name, spelt.name)
    && (spelt.kind == n.kind || (spelt.kind in {"", "alias"} && n.kind in {"", "alias"}))
  }

  /** The text with its language and sort key spelt differently; the sort key's limit counts its white space,
      and the description is compared as it is. */
  ghost predicate SpellsText(t: LocalText, spelt: LocalText, lower: char -> char) {
    && SpellsLanguage(t.language, spelt.language, lower) && Padded(t.sortKey, spelt.sortKey)
    && |spelt.sortKey| <= 512 && spelt.description == t.description
  }

  lemma PaddedTrims(s: string, padded: string)
    requires Padded(s, padded)
    ensures TrimSpace(padded) == TrimSpace(s) && |padded| >= |s|
  {
    var a, b :| (forall ch <- a :: IsSpace(ch)) && (forall ch <- b :: IsSpace(ch)) && padded == a + s + b;
    TrimSpacePadded(a, s, b);
  }

  lemma SpellsSameLanguage(l: string, spelt: string, lower: char -> char)
    requires SpellsLanguage(l, spelt, lower) && KeepsSpace(lower)
    ensures NormalLanguage(spelt, lower) == NormalLanguage(l, lower)
  {
    hide TrimSpace;
    var language :| Lower(language, lower) == Lower(l, lower) && Padded(language, spelt);
    PaddedTrims(language, spelt);
    LowerTrimSpace(language, lower);
    LowerTrimSpace(l, lower);
  }

  /** Language casing, surrounding white space and an omitted alias kind do not change a name's normal form. */
  lemma NormalNameForgives(n: Name, spelt: Name, lower: char -> char)
    requires SpellsName(n, spelt, lower) && KeepsSpace(lower)
    ensures NormalName(spelt, lower) == NormalName(n, lower)
  {
    SpellsSameLanguage(n.language, spelt.language, lower);
    PaddedTrims(n.name, spelt.name);
  }

  /** Nor do language casing and surrounding white space a text's. */
  lemma NormalTextForgives(t: LocalText, spelt: LocalText, lower: char -> char)
    requires SpellsText(t, spelt, lower) && KeepsSpace(lower)
    ensures NormalText(spelt, lower) == NormalText(t, lower)
  {
    SpellsSameLanguage(t.language, spelt.language, lower);
    PaddedTrims(t.sortKey, spelt.sortKey);
  }

  /** Lower case stays lower case. */
  ghost predicate Settles(lower: char -> char) { forall ch :: lower(lower(ch)) == lower(ch) }

  /** A language as it is stored. */
  ghost predicate NormalForm(l: string, lower: char -> char) {
    0 < ByteLength(l) <= 16 && (forall ch <- l :: lower(ch) == ch && !IsSpace(ch))
  }

  /** A name's normal form is the one stored name it spells: lower-case language, "name" or "alias", at most 512
      characters without white space at the ends. */
  lemma NormalNameIs(n: Name, m: Name, lower: char -> char)
    requires KeepsSpace(lower) && Settles(lower)
    ensures NormalName(n, lower) == Some(m) <==>
              && NormalForm(m.language, lower) && m.kind in {"name", "alias"}
              && Trimmed(m.name) && 1 <= |m.name| <= 512 && SpellsName(m, n, lower)
  {
    TrimSpaceTrims(n.name);
    TrimSpaceTrims(m.name);
    if NormalForm(m.language, lower) { StoredLanguage(m.language, lower); }
    if NormalName(n, lower) == Some(m) {
      LanguageSpelt(n.language, m.language, lower);
      PaddedTrim(n.name);
    } else if SpellsName(m, n, lower) {
      NormalNameForgives(m, n, lower);
    }
  }

  /** The same for texts; the sort key's limit of 512 counts its white space. */
  lemma NormalTextIs(t: LocalText, m: LocalText, lower: char -> char)
    requires KeepsSpace(lower) && Settles(lower)
    ensures NormalText(t, lower) == Some(m) <==>
              && NormalForm(m.language, lower) && |m.description| <= 20000
              && Trimmed(m.sortKey) && SpellsText(m, t, lower)
  {
    TrimSpaceTrims(t.sortKey);
    TrimSpaceTrims(m.sortKey);
    PaddedTrim(t.sortKey);
    if NormalForm(m.language, lower) { StoredLanguage(m.language, lower); }
    if NormalText(t, lower) == Some(m) {
      LanguageSpelt(t.language, m.language, lower);
    } else if SpellsText(m, t, lower) {
      NormalTextForgives(m, t, lower);
      PaddedTrims(m.sortKey, t.sortKey);
    }
  }

  lemma PaddedTrim(s: string)
    ensures Padded(TrimSpace(s), s)
  {
    var a, b := TrimSpaceSplit(s);
  }

  lemma StoredLanguage(l: string, lower: char -> char)
    requires NormalForm(l, lower)
    ensures NormalLanguage(l, lower) == Some(l)
  {
    assert l != "" && l[0] in l && l[|l| - 1] in l;
    TrimSpaceTrims(l);
    hide TrimSpace;
    assert Lower(l, lower) == l by { forall i | 0 <= i < |l| ensures lower(l[i]) == l[i] { assert l[i] in l; } }
  }

  lemma LanguageSpelt(given: string, l: string, lower: char -> char)
    requires KeepsSpace(lower) && Settles(lower) && NormalLanguage(given, lower) == Some(l)
    ensures NormalForm(l, lower) && SpellsLanguage(l, given, lower)
  {
    var trimmed := TrimSpace(given);
    PaddedTrim(given);
    hide TrimSpace;
    assert l == Lower(trimmed, lower) && Lower(l, lower) == l;
    forall ch | ch in l ensures lower(ch) == ch {
      var i :| 0 <= i < |l| && l[i] == ch;
      assert l[i] == lower(trimmed[i]);
    }
  }

  /** Reordering and repeating names, reordering texts, and spelling either differently do not change whether
      an identity is the stored one. */
  lemma IdentityForgives(d: Entity, names: seq<Name>, names': seq<Name>,
                         text: seq<LocalText>, reordered: seq<LocalText>, text': seq<LocalText>, lower: char -> char)
    requires KeepsSpace(lower)
    requires forall n <- names :: exists spelt <- names' :: SpellsName(n, spelt, lower)
    requires forall spelt <- names' :: exists n <- names :: SpellsName(n, spelt, lower)
    requires multiset(reordered) == multiset(text) && |text'| == |reordered|
    requires forall i | 0 <= i < |reordered| :: SpellsText(reordered[i], text'[i], lower)
    ensures SameIdentity(d, names, text, lower) == SameIdentity(d, names', text', lower)
  {
    hide SpellsName, SpellsText, NormalName, NormalText, KeepsSpace, SameIdentity;
    forall n, spelt | n in names && spelt in names' && SpellsName(n, spelt, lower)
      ensures NormalName(spelt, lower) == NormalName(n, lower)
    {
      NormalNameForgives(n, spelt, lower);
    }
    assert Normals(names, lower) == Normals(names', lower);
    forall i | 0 <= i < |reordered| ensures NormalText(text'[i], lower) == NormalText(reordered[i], lower) {
      NormalTextForgives(reordered[i], text'[i], lower);
    }
    assert NormalTexts(text', lower) == NormalTexts(reordered, lower);
    ReorderedTexts(reordered, text, lower);
    OnlyNormalFormsMatter(d, names, names', text, text', lower);
  }

  lemma {:induction false} ReorderedTexts(a: seq<LocalText>, b: seq<LocalText>, lower: char -> char)
    requires multiset(a) == multiset(b)
    ensures multiset(NormalTexts(a, lower)) == multiset(NormalTexts(b, lower))
    decreases |a|
  {
    hide NormalTexts, NormalText;
    if a == [] {
      assert |b| == |multiset(b)| == 0;
    } else {
      assert a[0] in multiset(b);
      var i :| 0 <= i < |b| && b[i] == a[0];
      var resta, restb := a[..0] + a[1..], b[..i] + b[i + 1..];
      assert multiset(resta) == multiset(restb) by {
        Without(a, 0);
        Without(b, i);
      }
      ReorderedTexts(resta, restb, lower);
      NormalTextsWithout(a, 0, lower);
      NormalTextsWithout(b, i, lower);
    }
  }

  lemma Without<T>(xs: seq<T>, i: nat)
    requires i < |xs|
    ensures multiset(xs[..i] + xs[i + 1..]) == multiset(xs) - multiset{xs[i]}
  {
    assert xs == xs[..i] + [xs[i]] + xs[i + 1..];
  }

  lemma NormalTextsWithout(text: seq<LocalText>, i: nat, lower: char -> char)
    requires i < |text|
    ensures multiset(NormalTexts(text, lower)) ==
              multiset(NormalTexts(text[..i] + text[i + 1..], lower)) + multiset{NormalText(text[i], lower)}
  {
    hide NormalText;
    var texts := NormalTexts(text, lower);
    assert NormalTexts(text[..i] + text[i + 1..], lower) == texts[..i] + texts[i + 1..];
    Without(texts, i);
    assert texts[i] in multiset(texts);
  }
}
