/** Content codes and paths: Crockford decoding, route validation and path parsing (contenturl). */
module ContentURL {
  import opened Text

  const CODE_LENGTH: nat := 9

  // ---------------------------------------------------------------- codes

  /** Alphabet is Crockford base32: digits and uppercase letters without I, L, O and U. */
  predicate InAlphabet(ch: char) { '0' <= ch <= '9' || (IsLetter(ch) && ch !in "ILOU") }

  /** A character as Crockford reads it: any case, O as 0, I and L as 1. */
  function Canon(ch: char): char {
    var c := if 'a' <= ch <= 'z' then (ch as int - 32) as char else ch;
    if c == 'O' then '0' else if c == 'I' || c == 'L' then '1' else c
  }

  /** The text without hyphens, read character by character. */
  function Canons(s: string): string {
    if s == [] then "" else Canons(s[..|s| - 1]) + if s[|s| - 1] == '-' then "" else [Canon(s[|s| - 1])]
  }

  predicate IsLetter(ch: char) { 'A' <= ch <= 'Z' }

  /** n characters of the alphabet, at least one a letter. */
  predicate IsCode(c: string, n: nat) {
    |c| == n && (forall ch <- c :: InAlphabet(ch)) && exists ch <- c :: IsLetter(ch)
  }

  function ParseCrockford(s: string, n: nat): Option<string> {
    if IsCode(Canons(s), n) then Some(Canons(s)) else None
  }

  /** parseCrockford's loop, which stops at the first character outside the alphabet or past n. */
  method ReadCrockford(s: string, n: nat) returns (r: Option<string>)
    ensures r == ParseCrockford(s, n)
  {
    var b := "";
    for i := 0 to |s|
      invariant b == Canons(s[..i]) && |b| <= n && forall ch <- b :: InAlphabet(ch)
    {
      assert s[..i + 1][..i] == s[..i];
      if s[i] != '-' {
        var c := Canon(s[i]);
        if !InAlphabet(c) || |b| == n {
          CanonsGrow(s, i + 1);
          assert Canons(s[..i + 1]) == b + [c];
          if |b| < n { assert Canons(s[..i + 1])[|b|] == c && c in Canons(s); }
          return None;
        }
        b := b + [c];
      }
    }
    assert s[..|s|] == s;
    if |b| != n || forall ch <- b :: !IsLetter(ch) { return None; }
    return Some(b);
  }

  lemma {:induction false} CanonsGrow(s: string, i: nat)
    requires i <= |s|
    ensures Canons(s[..i]) <= Canons(s)
    decreases |s| - i
  {
    if i == |s| {
      assert s[..i] == s;
    } else {
      assert s[..i + 1][..i] == s[..i];
      CanonsGrow(s, i + 1);
    }
  }

  function ParseCode(s: string): Option<string> { ParseCrockford(s, CODE_LENGTH) }

  /** Code.Valid. */
  predicate ValidCode(c: string) { ParseCode(c) == Some(c) }

  lemma AlphabetIsFixed(ch: char)
    requires InAlphabet(ch)
    ensures Canon(ch) == ch && ch != '-' && ch != '/'
  {}

  lemma {:induction false} CanonsFixed(c: string)
    requires forall ch <- c :: InAlphabet(ch)
    ensures Canons(c) == c
    decreases c
  {
    hide InAlphabet, Canon;
    if c != [] {
      CanonsFixed(c[..|c| - 1]);
      assert c[|c| - 1] in c;
      AlphabetIsFixed(c[|c| - 1]);
    }
  }

  /** A code is valid exactly when it has the canonical form, and whatever parses parses to a valid code. */
  lemma CodesAreCanonical(s: string)
    ensures ValidCode(s) <==> IsCode(s, CODE_LENGTH)
    ensures ParseCode(s).Some? ==> ValidCode(ParseCode(s).value)
  {
    if IsCode(s, CODE_LENGTH) { CanonsFixed(s); }
    if ParseCode(s).Some? { CanonsFixed(Canons(s)); }
  }

  /** How a character of a code may be written: in either case, with O for 0 and I or L for 1. */
  predicate SpellsChar(ch: char, c: char) {
    || ch == c || ('A' <= c <= 'Z' && ch as int == c as int + 32)
    || (c == '0' && ch in "Oo") || (c == '1' && ch in "IiLl")
  }

  /** s writes the code, with any hyphens in between. */
  predicate Spells(s: string, code: string) {
    if s == "" then code == ""
    else if s[|s| - 1] == '-' then Spells(s[..|s| - 1], code)
    else
      && code != "" && SpellsChar(s[|s| - 1], code[|code| - 1])
      && Spells(s[..|s| - 1], code[..|code| - 1])
  }

  lemma SpellsCharIs(ch: char, c: char)
    requires InAlphabet(c)
    ensures SpellsChar(ch, c) <==> ch != '-' && Canon(ch) == c
  {}

  lemma {:induction false} SpellsIs(s: string, code: string)
    requires forall c <- code :: InAlphabet(c)
    ensures Spells(s, code) <==> Canons(s) == code
    decreases s
  {
    hide InAlphabet, Canon, SpellsChar;
    if s != "" {
      var init, ch := s[..|s| - 1], s[|s| - 1];
      if ch == '-' {
        SpellsIs(init, code);
      } else if code != "" {
        var most, last := code[..|code| - 1], code[|code| - 1];
        assert last in code && forall c <- most :: c in code;
        SpellsCharIs(ch, last);
        SpellsIs(init, most);
        assert code == most + [last];
        assert Canons(s)[..|Canons(s)| - 1] == Canons(init);
      }
    }
  }

  /** What ParseCode reads: exactly the spellings of nine digits and capitals other than I, L, O and U, one of
      them a capital. */
  lemma ParsesItsSpellings(s: string, code: string)
    ensures ParseCode(s) == Some(code) <==>
              && |code| == 9 && Spells(s, code) && (exists c <- code :: 'A' <= c <= 'Z')
              && forall c <- code ::
                   '0' <= c <= '9' || ('A' <= c <= 'Z' && c != 'I' && c != 'L' && c != 'O' && c != 'U')
  {
    if forall c <- code :: InAlphabet(c) { SpellsIs(s, code); }
    hide Canons, Spells;
    assert (exists c <- code :: IsLetter(c)) <==> exists c <- code :: 'A' <= c <= 'Z';
  }

  // ---------------------------------------------------------------- routes

  /** Content kinds to routes. */
  type Routes = map<string, string>

  predicate IsSegment(s: string) {
    && s != "" && s[0] !in "_-"
    && forall ch <- s :: 'a' <= ch <= 'z' || '0' <= ch <= '9' || ch == '_' || ch == '-'
  }

  /** [a-z0-9][a-z0-9_-]*. */
  lemma SegmentIs(s: string)
    ensures IsSegment(s) <==>
              && 0 < |s| && ('a' <= s[0] <= 'z' || '0' <= s[0] <= '9')
              && forall i | 0 < i < |s| :: 'a' <= s[i] <= 'z' || '0' <= s[i] <= '9' || s[i] == '_' || s[i] == '-'
  {
    if IsSegment(s) {
      assert s[0] in s && forall i | 0 < i < |s| :: s[i] in s;
    }
  }

  predicate Has(routes: Routes, route: string) { exists kind <- routes :: routes[kind] == route }

  /** Routes.Validate accepts. */
  predicate Validates(routes: Routes, languages: seq<string>) {
    && routes != map[]
    && (forall kind <- routes :: TrimSpace(kind) != "" && IsSegment(routes[kind]))
    && (forall l <- languages :: IsSegment(l) && !Has(routes, l))
  }

  /** Validate's two loops, which fill the set of routes first. */
  method Validate(routes: Routes, languages: seq<string>) returns (ok: bool)
    ensures ok <==> Validates(routes, languages)
  {
    if routes == map[] { return false; }
    var seen: set<string> := {};
    var todo := routes.Keys;
    while todo != {}
      invariant todo <= routes.Keys
      invariant forall kind <- routes.Keys - todo :: TrimSpace(kind) != "" && IsSegment(routes[kind])
      invariant seen == set kind | kind in routes && kind !in todo :: routes[kind]
    {
      var kind :| kind in todo;
      if TrimSpace(kind) == "" || !IsSegment(routes[kind]) { return false; }
      seen := seen + {routes[kind]};
      todo := todo - {kind};
    }
    assert forall kind <- routes :: kind in routes.Keys - todo;
    for i := 0 to |languages|
      invariant forall l <- languages[..i] :: IsSegment(l) && !Has(routes, l)
    {
      var l := languages[i];
      if !IsSegment(l) { return false; }
      if l in seen { return false; }
    }
    assert languages[..|languages|] == languages;
    return true;
  }

  // ---------------------------------------------------------------- paths

  datatype Parsed = Parsed(language: string, route: string, code: string, rawCode: string, slug: string)

  predicate NoEmpty(segs: seq<string>) { forall s <- segs :: s != "" }

  /** The segments of a path; None when one is empty or there is no leading slash. */
  function Segments(path: string): Option<seq<string>> {
    if path == "" || path[0] != '/' then None else
      var rest := path[1..];
      var trimmed := if rest != "" && rest[|rest| - 1] == '/' then rest[..|rest| - 1] else rest;
      var segs := Split(trimmed, '/');
      if NoEmpty(segs) then Some(segs) else None
  }

  /** The language a long enough path begins with, "" for none. */
  function LanguageOf(segs: seq<string>, languages: seq<string>): string {
    if |segs| > 2 && segs[0] in languages then segs[0] else ""
  }

  function ParsePath(path: string, routes: Routes, languages: seq<string>): Option<Parsed> {
    match Segments(path)
    case None => None
    case Some(all) =>
      var language := LanguageOf(all, languages);
      var segs := if |all| > 2 && all[0] in languages then all[1..] else all;
      // A stray first segment before a known route is dropped.
      var segs := if language == "" && |segs| > 2 && !Has(routes, segs[0]) && Has(routes, segs[1])
                  then segs[1..] else segs;
      if |segs| < 2 || !Has(routes, segs[0]) then None else
        match ParseCode(segs[1])
        case None => None
        case Some(code) => Some(Parsed(language, segs[0], code, segs[1], Join(segs[2..], "/")))
  }

  /** The documented form /{lang}/{route}/{CODE}[/{slug}]; without a language it starts at the route. */
  function Canonical(language: string, route: string, code: string, slug: string): string {
    "/" + Join((if language == "" then [] else [language]) + [route, code] + if slug == "" then [] else [slug], "/")
  }

  /** A decorative slug: absent, or segments without an empty one. */
  predicate IsSlug(slug: string) { slug == "" || NoEmpty(Split(slug, '/')) }

  /** One path segment. */
  predicate Plain(s: string) { s != "" && '/' !in s }

  lemma {:induction false} CanonsKeep(s: string, ch: char)
    requires ch in s && ch != '-'
    ensures Canon(ch) in Canons(s)
    decreases s
  {
    hide Canon;
    var init, last := s[..|s| - 1], s[|s| - 1];
    assert s == init + [last];
    if ch != last { CanonsKeep(init, ch); }
  }

  lemma SlashIsNoDigit()
    ensures !InAlphabet('/') && Canon('/') == '/'
  {}

  lemma SegmentsArePlain(s: string)
    ensures IsSegment(s) ==> Plain(s)
    ensures ParseCode(s).Some? ==> Plain(s)
  {
    SlashIsNoDigit();
    if ParseCode(s).Some? && '/' in s { CanonsKeep(s, '/'); }
  }

  lemma {:induction false} JoinAppend(a: seq<string>, slug: string)
    requires a != []
    ensures Join(a + [slug], "/") == Join(a, "/") + "/" + slug
    decreases a
  {
    if |a| > 1 {
      JoinAppend(a[1..], slug);
      assert (a + [slug])[1..] == a[1..] + [slug];
    }
  }

  lemma {:induction false} JoinConcat(a: seq<string>, b: seq<string>)
    requires a != [] && b != []
    ensures Join(a + b, "/") == Join(a, "/") + "/" + Join(b, "/")
    decreases a
  {
    if |a| == 1 {
      assert (a + b)[1..] == b;
    } else {
      JoinConcat(a[1..], b);
      assert (a + b)[1..] == a[1..] + b;
    }
  }

  /** The segments of a canonical path. */
  function CanonicalSegments(language: string, route: string, code: string, slug: string): seq<string> {
    (if language == "" then [] else [language]) + [route, code] + if slug == "" then [] else Split(slug, '/')
  }

  lemma SegmentsOfCanonical(lead: string, route: string, code: string, slug: string)
    requires (lead == "" || Plain(lead)) && Plain(route) && Plain(code) && IsSlug(slug)
    ensures Segments(Canonical(lead, route, code, slug)) == Some(CanonicalSegments(lead, route, code, slug))
    ensures var path := Canonical(lead, route, code, slug); path != "" && path[|path| - 1] != '/'
  {
    hide Split, Join;
    JoinSplit(slug, '/');
    var segs := CanonicalSegments(lead, route, code, slug);
    assert NoEmpty(segs) && forall s <- segs :: '/' !in s;
    CanonicalIsJoin(lead, route, code, slug);
    SplitJoin(segs, '/');
    LastOfJoin(segs);
    var path := Canonical(lead, route, code, slug);
    assert path[1..] == Join(segs, "/");
  }

  lemma CanonicalIsJoin(language: string, route: string, code: string, slug: string)
    ensures Canonical(language, route, code, slug) == "/" + Join(CanonicalSegments(language, route, code, slug), "/")
  {
    hide Split, Join;
    var head := (if language == "" then [] else [language]) + [route, code];
    if slug != "" {
      JoinConcat(head, Split(slug, '/'));
      JoinAppend(head, slug);
      JoinSplit(slug, '/');
    } else {
      assert head + [] == head;
    }
  }

  /** A join of nonempty slash-free segments does not end in a slash. */
  lemma {:induction false} LastOfJoin(segs: seq<string>)
    requires segs != [] && NoEmpty(segs) && forall s <- segs :: '/' !in s
    ensures Join(segs, "/") != "" && Join(segs, "/")[|Join(segs, "/")| - 1] != '/'
    decreases segs
  {
    if |segs| == 1 {
      assert segs[0] in segs && segs[0][|segs[0]| - 1] in segs[0];
    } else {
      assert forall s <- segs[1..] :: s in segs;
      LastOfJoin(segs[1..]);
    }
  }

  /** [/{lead}]/{route}/{code}[/{slug}][/] as text. */
  function Written(lead: string, route: string, raw: string, slug: string, slash: bool): string {
    (if lead == "" then "" else "/" + lead) + "/" + route + "/" + raw
    + (if slug == "" then "" else "/" + slug) + if slash then "/" else ""
  }

  /** What may stand before the route: nothing, a language, or one stray segment that is neither a language nor
      a route. */
  ghost predicate LeadOk(lead: string, routes: Routes, languages: seq<string>) {
    lead == "" || lead in languages || (Plain(lead) && !Has(routes, lead))
  }

  lemma WrittenIs(lead: string, route: string, raw: string, slug: string)
    ensures Written(lead, route, raw, slug, false) == Canonical(lead, route, raw, slug)
    ensures Written(lead, route, raw, slug, true) == Canonical(lead, route, raw, slug) + "/"
  {
    var tail := if slug == "" then [] else [slug];
    var last, most := [raw] + tail, [route, raw] + tail;
    assert last[1..] == tail && most[1..] == last && most[0] == route;
    assert Join(last, "/") == raw + if slug == "" then "" else "/" + slug;
    assert Join(most, "/") == route + "/" + Join(last, "/");
    if lead == "" {
      assert [] + [route, raw] + tail == most;
    } else {
      assert ([lead] + [route, raw] + tail)[1..] == most;
      assert Join([lead] + [route, raw] + tail, "/") == lead + "/" + Join(most, "/");
    }
    hide Join;
  }

  lemma SlashDropped(path: string)
    requires path != "" && path[|path| - 1] != '/'
    ensures Segments(path + "/") == Segments(path)
  {
    hide Split;
    if path[0] == '/' {
      assert (path + "/")[1..] == path[1..] + "/";
      assert (path[1..] + "/")[..|path| - 1] == path[1..];
    }
  }

  /** For validated routes the documented form parses to exactly its parts, in any spelling of the code, under
      a language, a stray segment or neither, with or without a slash at the end. */
  lemma WrittenParses(routes: Routes, languages: seq<string>, lead: string, route: string, raw: string, slug: string,
                      slash: bool)
    requires Validates(routes, languages) && LeadOk(lead, routes, languages)
    requires Has(routes, route) && ParseCode(raw).Some? && IsSlug(slug)
    ensures ParsePath(Written(lead, route, raw, slug, slash), routes, languages) ==
            Some(Parsed(if lead in languages then lead else "", route, ParseCode(raw).value, raw, slug))
  {
    hide ParseCode, IsSegment, Segments, Canonical, Written, Split, Join, IsSlug;
    RouteIsNoLanguage(routes, languages, route);
    SegmentsArePlain(route);
    SegmentsArePlain(raw);
    LeadIsPlain(lead, routes, languages);
    SegmentsOfCanonical(lead, route, raw, slug);
    WrittenIs(lead, route, raw, slug);
    SlashDropped(Canonical(lead, route, raw, slug));
    SlugJoins(slug);
    var all := CanonicalSegments(lead, route, raw, slug);
    var tail := if slug == "" then [] else Split(slug, '/');
    assert all == (if lead == "" then [] else [lead]) + ([route, raw] + tail);
    assert lead != "" ==> all[1..] == [route, raw] + tail;
    assert ([route, raw] + tail)[2..] == tail;
  }

  lemma LeadIsPlain(lead: string, routes: Routes, languages: seq<string>)
    requires Validates(routes, languages) && LeadOk(lead, routes, languages)
    ensures lead == "" || Plain(lead)
    ensures lead in languages ==> lead != "" && !Has(routes, lead)
  {
    if lead in languages { SegmentsArePlain(lead); }
  }

  lemma SlugJoins(slug: string)
    ensures Join(if slug == "" then [] else Split(slug, '/'), "/") == slug
  {
    JoinSplit(slug, '/');
  }

  /** Nothing else parses: every accepted path is written so. */
  lemma ParsedIsWritten(path: string, routes: Routes, languages: seq<string>) returns (lead: string, slash: bool)
    requires Validates(routes, languages) && ParsePath(path, routes, languages).Some?
    ensures var p := ParsePath(path, routes, languages).value;
            && path == Written(lead, p.route, p.rawCode, p.slug, slash)
            && LeadOk(lead, routes, languages) && p.language == (if lead in languages then lead else "")
            && Has(routes, p.route) && ParseCode(p.rawCode) == Some(p.code) && IsSlug(p.slug)
  {
    ParsedParts(path, routes, languages);
    var n := ParsedFrom(path, routes, languages);
    SegmentsAreClean(path);
    slash := PathIsJoin(path);
    hide *;
    var p := ParsePath(path, routes, languages).value;
    var all := Segments(path).value;
    lead := if n == 0 then "" else all[0];
    LeadIsOk(lead, all, routes, languages);
    CleanTail(all, n + 2);
    TailIsSlug(all[n + 2..]);
    AllIs(all, n);
    SegmentsAre(lead, p.route, p.rawCode, p.slug);
    CanonicalIsJoin(lead, p.route, p.rawCode, p.slug);
    WrittenIs(lead, p.route, p.rawCode, p.slug);
  }

  lemma SegmentsAre(lead: string, route: string, raw: string, slug: string)
    ensures CanonicalSegments(lead, route, raw, slug) ==
              (if lead == "" then [] else [lead]) + [route, raw] + if slug == "" then [] else Split(slug, '/')
  {}

  lemma AllIs(all: seq<string>, n: nat)
    requires n <= 1 && n + 2 <= |all|
    ensures all == (if n == 0 then [] else [all[0]]) + [all[n], all[n + 1]] + all[n + 2..]
  {}

  lemma LeadIsOk(lead: string, all: seq<string>, routes: Routes, languages: seq<string>)
    requires lead == "" || (lead in languages || (lead in all && !Has(routes, lead)))
    requires NoEmpty(all) && forall s <- all :: '/' !in s
    ensures LeadOk(lead, routes, languages)
  {}

  lemma CleanTail(all: seq<string>, n: nat)
    requires n <= |all| && NoEmpty(all) && forall s <- all :: '/' !in s
    ensures NoEmpty(all[n..]) && (forall s <- all[n..] :: '/' !in s) && forall i | 0 <= i < |all| :: all[i] != ""
  {
    assert forall i | 0 <= i < |all| :: all[i] in all;
    assert forall s <- all[n..] :: s in all;
  }

  /** The segments an accepted path is read from, after at most one other. */
  lemma ParsedFrom(path: string, routes: Routes, languages: seq<string>) returns (n: nat)
    requires ParsePath(path, routes, languages).Some? && Validates(routes, languages)
    ensures var p, all := ParsePath(path, routes, languages).value, Segments(path).value;
            && n <= 1 && n + 2 <= |all|
            && p.route == all[n] && p.rawCode == all[n + 1] && p.slug == Join(all[n + 2..], "/")
            && p.language == (if n == 1 && all[0] in languages then all[0] else "")
            && (n == 1 && all[0] !in languages ==> !Has(routes, all[0]))
            && "" !in languages
  {
    hide ParseCode, Segments, Join, Has, IsSegment;
    var all := Segments(path).value;
    n := if |all| > 2 && (all[0] in languages || (!Has(routes, all[0]) && Has(routes, all[1]))) then 1 else 0;
    assert "" !in languages by { EmptyIsNoSegment(); }
    assert n == 1 ==> all[1..][2..] == all[3..];
  }

  lemma EmptyIsNoSegment()
    ensures !IsSegment("")
  {}

  lemma TailIsSlug(tail: seq<string>)
    requires NoEmpty(tail) && forall s <- tail :: '/' !in s
    ensures tail == if Join(tail, "/") == "" then [] else Split(Join(tail, "/"), '/')
  {
    if tail != [] {
      SplitJoin(tail, '/');
      LastOfJoin(tail);
    }
  }

  lemma PathIsJoin(path: string) returns (slash: bool)
    requires Segments(path).Some?
    ensures path == "/" + Join(Segments(path).value, "/") + if slash then "/" else ""
  {
    var rest := path[1..];
    slash := rest != "" && rest[|rest| - 1] == '/';
    JoinSplit(if slash then rest[..|rest| - 1] else rest, '/');
    hide Split, Join;
    assert path == "/" + rest;
    assert slash ==> rest == rest[..|rest| - 1] + "/";
  }

  /** The documented form with a canonical code. */
  lemma CanonicalParses(routes: Routes, languages: seq<string>, language: string, route: string, code: string,
                        slug: string)
    requires Validates(routes, languages) && (language == "" || language in languages)
    requires Has(routes, route) && ValidCode(code) && IsSlug(slug)
    ensures ParsePath(Canonical(language, route, code, slug), routes, languages) ==
            Some(Parsed(language, route, code, code, slug))
  {
    CodeParses(code);
    RouteIsNoLanguage(routes, languages, route);
    hide ParseCode, ParsePath, Canonical, Written;
    WrittenIs(language, route, code, slug);
    WrittenParses(routes, languages, language, route, code, slug, false);
  }

  lemma RouteIsNoLanguage(routes: Routes, languages: seq<string>, route: string)
    requires Validates(routes, languages) && Has(routes, route)
    ensures route !in languages && IsSegment(route) && "" !in languages
  {}

  lemma CodeParses(code: string)
    requires ValidCode(code)
    ensures ParseCode(code) == Some(code)
  {}

  /** Canonicalization is a fixed point: any accepted path, reprinted under any of the site's languages or
      none, parses to the same route, code and slug. */
  lemma CanonicalIsFixedPoint(path: string, routes: Routes, languages: seq<string>, language: string)
    requires Validates(routes, languages) && (language == "" || language in languages)
    requires ParsePath(path, routes, languages).Some?
    ensures var p := ParsePath(path, routes, languages).value;
            ParsePath(Canonical(language, p.route, p.code, p.slug), routes, languages)
              == Some(Parsed(language, p.route, p.code, p.code, p.slug))
  {
    var p := ParsePath(path, routes, languages).value;
    ParsedParts(path, routes, languages);
    CodesAreCanonical(p.rawCode);
    CanonicalParses(routes, languages, language, p.route, p.code, p.slug);
  }

  lemma ParsedParts(path: string, routes: Routes, languages: seq<string>)
    requires ParsePath(path, routes, languages).Some?
    ensures var p := ParsePath(path, routes, languages).value;
            Has(routes, p.route) && ParseCode(p.rawCode) == Some(p.code) && IsSlug(p.slug)
  {
    hide ParseCode, IsSlug, Segments, Join;
    var all := Segments(path).value;
    SegmentsAreClean(path);
    forall n | 0 <= n <= |all| ensures IsSlug(Join(all[n..], "/")) {
      assert forall s <- all[n..] :: s in all;
      SlugOf(all[n..]);
    }
    var p := ParsePath(path, routes, languages).value;
    assert |all| >= 3 ==> all[1..][2..] == all[3..] && all[0] in all;
    assert p.slug == Join(all[2..], "/") || (|all| > 2 && p.slug == Join(all[3..], "/"));
  }

  lemma SegmentsAreClean(path: string)
    requires Segments(path).Some?
    ensures NoEmpty(Segments(path).value) && forall s <- Segments(path).value :: '/' !in s
  {
    var rest := path[1..];
    JoinSplit(if rest != "" && rest[|rest| - 1] == '/' then rest[..|rest| - 1] else rest, '/');
  }

  lemma SlugOf(segs: seq<string>)
    requires NoEmpty(segs) && forall s <- segs :: '/' !in s
    ensures IsSlug(Join(segs, "/"))
  {
    if segs != [] { SplitJoin(segs, '/'); }
  }
}
