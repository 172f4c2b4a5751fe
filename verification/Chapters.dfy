/**
 Rewriting a version's chapters (content_segments), statement by statement, with the table's
 constraints checked after every single row change as PostgreSQL checks them.
 */
module Chapters {
  import opened Text
  import opened Decimal

  /** catalog.Segment as writeChaptersTx uses it. Times are in nanoseconds, as Go has them. */
  datatype Segment = Segment(
    id: string, position: int, title: string, startPage: string, start: int, end: int, releaseAt: Option<int>)

  /** The table is keyed by its unique (version, id) index; ON CONFLICT names it. */
  datatype RowKey = RowKey(version: string, id: string)

  datatype Row = Row(
    position: int, title: string, start: Option<int>, end: Option<int>, releaseAt: Option<int>,
    startPage: Option<string>, releasedAt: Option<int>)

  type Table = map<RowKey, Row>

  datatype Outcome = Unchanged | Written | NotOfVersion | Repeated | ConstraintViolation | BadText

  // ---------------------------------------------------------------- constraints

  /** content_segments_range_check: a numeric range or a start page (text holds no NUL). */
  predicate RangeOk(row: Row) {
    match row.startPage
    case None => row.start.Some? && row.end.Some? && 0 <= row.start.value < row.end.value
    case Some(page) => page != "" && '\0' !in page && row.start.None? && row.end.None?
  }

  /** The primary key (version, position) and the partial unique index on start_page. */
  predicate Clash(k: RowKey, row: Row, other: RowKey, otherRow: Row) {
    && k != other && k.version == other.version
    && (row.position == otherRow.position || (row.startPage.Some? && row.startPage == otherRow.startPage))
  }

  ghost predicate Admits(rows: Table, k: RowKey, row: Row) {
    RangeOk(row) && forall other <- rows :: !Clash(k, row, other, rows[other])
  }

  ghost predicate Consistent(rows: Table) { forall k <- rows :: Admits(rows, k, rows[k]) }

  /** A consistent table in the tables' own terms: within a version positions and start pages are unique, and
      every row has a numeric range or a start page. */
  lemma ConsistentMeans(rows: Table)
    ensures Consistent(rows) <==>
              && (forall k <- rows, other <- rows | k.version == other.version && k.id != other.id ::
                    && rows[k].position != rows[other].position
                    && (rows[k].startPage.Some? ==> rows[k].startPage != rows[other].startPage))
              && (forall k <- rows ::
                    match (rows[k].startPage, rows[k].start, rows[k].end)
                    case (Some(page), None, None) => |page| > 0 && '\0' !in page
                    case (None, Some(start), Some(end)) => 0 <= start < end
                    case _ => false)
  {
    if Consistent(rows) {
      forall k, other | k in rows && other in rows && k.version == other.version && k.id != other.id
        ensures !Clash(k, rows[k], other, rows[other])
      {
        assert Admits(rows, k, rows[k]);
      }
    }
  }

  /** What every completed write leaves: valid rows, ids, authored positions, trimmed titles. */
  ghost predicate Stored(rows: Table) {
    Consistent(rows) && forall k <- rows :: k.id != "" && rows[k].position >= 0 && Trimmed(rows[k].title)
  }

  // ---------------------------------------------------------------- reading

  function GetOr<T>(o: Option<T>, default: T): T { if o.Some? then o.value else default }

  function SegmentOf(id: string, row: Row): Segment {
    Segment(id, row.position, row.title, GetOr(row.startPage, ""), GetOr(row.start, 0), GetOr(row.end, 0),
            row.releaseAt)
  }

  predicate Ascending(chapters: seq<Segment>) {
    forall i, j | 0 <= i < j < |chapters| :: chapters[i].position < chapters[j].position
  }

  /** The version's rows in position order, as selected. */
  ghost predicate IsListing(listing: seq<Segment>, rows: Table, version: string) {
    && Ascending(listing)
    && (forall c <- listing :: RowKey(version, c.id) in rows && c == SegmentOf(c.id, rows[RowKey(version, c.id)]))
    && (forall k <- rows :: k.version == version ==> SegmentOf(k.id, rows[k]) in listing)
  }

  /** Every row of the version is listed or still in rest, and what is listed comes first. */
  ghost predicate Listed(listing: seq<Segment>, rest: set<RowKey>, rows: Table, version: string) {
    && (forall k <- rest :: k in rows && k.version == version)
    && Ascending(listing)
    && (forall c <- listing :: RowKey(version, c.id) in rows && c == SegmentOf(c.id, rows[RowKey(version, c.id)]))
    && (forall k <- rows :: k.version == version ==> k in rest || SegmentOf(k.id, rows[k]) in listing)
    && (forall c <- listing, k <- rest :: c.position < rows[k].position)
  }

  lemma ListedStep(listing: seq<Segment>, rest: set<RowKey>, rows: Table, version: string, k: RowKey)
    requires Listed(listing, rest, rows, version) && k in rest
    requires forall other <- rest :: other == k || rows[k].position < rows[other].position
    ensures Listed(listing + [SegmentOf(k.id, rows[k])], rest - {k}, rows, version)
  {
    var c := SegmentOf(k.id, rows[k]);
    assert k == RowKey(version, c.id) && c.position == rows[k].position;
    forall i | 0 <= i < |listing| ensures listing[i].position < c.position { assert listing[i] in listing; }
    assert c in listing + [c] && forall d <- listing :: d in listing + [c];
  }

  lemma NothingAscending()
    ensures Ascending([])
  {}

  function ChapterMarker(page: string, start: int, end: int): string {
    if page != "" then page else "\0" + (Itoa(start) + ":" + Itoa(end))
  }

  function Marker(c: Segment): string { ChapterMarker(c.startPage, c.start, c.end) }

  /** The last listed chapter with a marker wins. */
  function MarkerIDs(listing: seq<Segment>): map<string, string> {
    if listing == [] then map[]
    else MarkerIDs(listing[..|listing| - 1])[Marker(listing[|listing| - 1]) := listing[|listing| - 1].id]
  }

  /** Two markers are equal only for the same page or the same numeric range. */
  lemma MarkerInjective(c: Segment, d: Segment)
    requires '\0' !in c.startPage && '\0' !in d.startPage && Marker(c) == Marker(d)
    ensures c.startPage == d.startPage
    ensures c.startPage == "" ==> c.start == d.start && c.end == d.end
  {
    assert Marker(c)[0] == Marker(d)[0];
    if c.startPage == "" && d.startPage == "" {
      assert Marker(c)[1..] == Itoa(c.start) + [':'] + Itoa(c.end);
      assert Marker(d)[1..] == Itoa(d.start) + [':'] + Itoa(d.end);
      CutJoined(Itoa(c.start), ':', Itoa(c.end));
      CutJoined(Itoa(d.start), ':', Itoa(d.end));
      ItoaInjective(c.start, d.start);
      ItoaInjective(c.end, d.end);
    }
  }

  // ---------------------------------------------------------------- what is authored

  predicate ShapeOk(c: Segment) {
    && c.position >= 0
    && if c.startPage == "" then 0 <= c.start < c.end
       else '\0' !in c.startPage && c.start == 0 && c.end == 0
  }

  /** What checkSegments (internal/catalogstore/validate.go) hands over: nonnegative distinct positions,
      distinct start pages, and either a start page or a numeric range. */
  ghost predicate Authored(chapters: seq<Segment>) {
    && (forall c <- chapters :: ShapeOk(c))
    && (forall i, j | 0 <= i < j < |chapters| ::
          && chapters[i].position != chapters[j].position
          && (chapters[i].startPage == chapters[j].startPage ==> chapters[i].startPage == ""))
  }

  /** The title limit, the UUID form and validChapterPath. */
  datatype Rules = Rules(title: string -> bool, id: string -> bool, path: string -> bool)

  predicate EntryOk(c: Segment, anchored: bool, rules: Rules) {
    && rules.title(c.title) && (c.id != "" ==> rules.id(c.id))
    && if anchored then c.startPage != "" && rules.path(c.startPage) && c.start == 0 && c.end == 0
       else c.startPage == "" && 0 <= c.start < c.end
  }

  /** An earlier chapter and a later one: no id twice, no page twice, no overlap. */
  predicate Apart(c: Segment, d: Segment, anchored: bool) {
    (c.id == "" || c.id != d.id) && if anchored then c.startPage != d.startPage else c.end <= d.start
  }

  /** A manifest checkSegments accepts: all anchored at pages, or all numeric. */
  ghost predicate Manifest(cs: seq<Segment>, anchored: bool, rules: Rules) {
    && (forall c <- cs :: EntryOk(c, anchored, rules))
    && (forall i, j | 0 <= i < j < |cs| :: Apart(cs[i], cs[j], anchored))
  }

  /** A longer manifest is accepted when its last chapter fits: a range only has to clear the one before. */
  lemma ManifestStep(cs: seq<Segment>, i: nat, anchored: bool, rules: Rules)
    requires i < |cs| && Manifest(cs[..i], anchored, rules)
    ensures Manifest(cs[..i + 1], anchored, rules) <==>
              && EntryOk(cs[i], anchored, rules)
              && (cs[i].id != "" ==> forall c <- cs[..i] :: c.id != cs[i].id)
              && (anchored ==> forall c <- cs[..i] :: c.startPage != cs[i].startPage)
              && (!anchored && i > 0 ==> cs[i - 1].end <= cs[i].start)
    ensures Manifest(cs, anchored, rules) ==> Manifest(cs[..i + 1], anchored, rules)
  {
    assert cs[..i + 1] == cs[..i] + [cs[i]];
    if Manifest(cs[..i + 1], anchored, rules) {
      ManifestEnds(cs[..i + 1], anchored, rules);
      if !anchored && i > 0 { assert cs[..i][i - 1] in cs[..i]; }
    } else if !anchored && i > 0 && cs[i - 1].end <= cs[i].start && cs[i].start < cs[i].end {
      RangesClear(cs[..i], cs[i], rules);
    }
  }

  /** The last chapter is an entry apart from every other. */
  lemma ManifestEnds(cs: seq<Segment>, anchored: bool, rules: Rules)
    requires cs != [] && Manifest(cs, anchored, rules)
    ensures var last := cs[|cs| - 1];
            EntryOk(last, anchored, rules) && forall c <- cs[..|cs| - 1] :: Apart(c, last, anchored)
  {
    assert cs[|cs| - 1] in cs;
  }

  /** A range after the last one is after all of them. */
  lemma RangesClear(cs: seq<Segment>, c: Segment, rules: Rules)
    requires cs != [] && Manifest(cs, false, rules) && cs[|cs| - 1].end <= c.start
    ensures forall d <- cs :: d.end <= c.start
  {
    var last := cs[|cs| - 1];
    assert EntryOk(last, false, rules);
    forall j | 0 <= j < |cs| ensures cs[j].end <= c.start {
      assert j < |cs| - 1 ==> Apart(cs[j], last, false);
    }
  }

  lemma ManifestIsAuthored(given: seq<Segment>, anchored: bool, rules: Rules, cs: seq<Segment>)
    requires Manifest(given, anchored, rules) && forall p :: rules.path(p) ==> '\0' !in p
    requires |cs| == |given| && forall i | 0 <= i < |cs| :: cs[i] == given[i].(position := i)
    ensures Authored(cs) && Ascending(cs) && DistinctMarkers(cs)
  {
    forall i | 0 <= i < |cs| ensures EntryOk(given[i], anchored, rules) && ShapeOk(cs[i]) {
      assert given[i] in given;
    }
    forall i, j | 0 <= i < j < |cs| ensures Marker(cs[i]) != Marker(cs[j]) {
      assert Apart(given[i], given[j], anchored);
      if Marker(cs[i]) == Marker(cs[j]) { MarkerInjective(cs[i], cs[j]); }
    }
  }

  /** checkSegments, the one producer of chapters, accepts exactly the manifests; validChapterPath refuses
      control characters. Positions are in manifest order, and no marker is shared. */
  method CheckSegments(given: seq<Segment>, rules: Rules) returns (out: Option<seq<Segment>>)
    requires forall p :: rules.path(p) ==> '\0' !in p
    ensures out.Some? <==> Manifest(given, given != [] && given[0].startPage != "", rules)
    ensures out.Some? ==> Authored(out.value) && Ascending(out.value) && DistinctMarkers(out.value)
    ensures out.Some? ==>
              |out.value| == |given| && forall i | 0 <= i < |given| :: out.value[i] == given[i].(position := i)
  {
    hide Manifest, Authored, Ascending, DistinctMarkers, Seen;
    var checked: seq<Segment> := [];
    var anchored := given != [] && given[0].startPage != "";
    var pages: set<string> := {};
    var ids: set<string> := {};
    NothingToCheck(given, anchored, rules);
    for i := 0 to |given|
      invariant |checked| == i && forall j | 0 <= j < i :: checked[j] == given[j].(position := j)
      invariant Manifest(given[..i], anchored, rules)
      invariant Seen(given[..i], ids, pages, anchored)
    {
      var c := given[i];
      ManifestStep(given, i, anchored, rules);
      SeenNext(given, i, ids, pages, anchored);
      if c.id != "" && (!rules.id(c.id) || c.id in ids) { return None; }
      if c.id != "" { ids := ids + {c.id}; }
      if (c.startPage != "") != anchored { return None; }
      if anchored {
        if c.startPage in pages || !rules.path(c.startPage) { return None; }
        pages := pages + {c.startPage};
        if c.start != 0 || c.end != 0 { return None; }
      } else if c.start < 0 || c.end <= c.start {
        return None;
      }
      if !anchored && i > 0 && c.start < checked[i - 1].end { return None; }
      if !rules.title(c.title) { return None; }
      checked := checked + [c.(position := i)];
    }
    assert given[..|given|] == given;
    ManifestIsAuthored(given, anchored, rules, checked);
    return Some(checked);
  }

  lemma NothingToCheck(given: seq<Segment>, anchored: bool, rules: Rules)
    ensures Manifest(given[..0], anchored, rules) && Seen(given[..0], {}, {}, anchored)
  {}

  /** The ids and pages of the chapters checked so far. */
  ghost predicate Seen(cs: seq<Segment>, ids: set<string>, pages: set<string>, anchored: bool) {
    && ids == (set c <- cs | c.id != "" :: c.id)
    && (anchored ==> pages == set c <- cs :: c.startPage)
  }

  lemma SeenNext(cs: seq<Segment>, i: nat, ids: set<string>, pages: set<string>, anchored: bool)
    requires i < |cs| && Seen(cs[..i], ids, pages, anchored)
    ensures cs[i].id != "" ==> (cs[i].id in ids <==> exists c <- cs[..i] :: c.id == cs[i].id)
    ensures anchored ==> (cs[i].startPage in pages <==> exists c <- cs[..i] :: c.startPage == cs[i].startPage)
    ensures Seen(cs[..i + 1], if cs[i].id != "" then ids + {cs[i].id} else ids,
                 if anchored then pages + {cs[i].startPage} else pages, anchored)
  {
    assert cs[..i + 1] == cs[..i] + [cs[i]];
  }

  ghost predicate DistinctIDs(chapters: seq<Segment>) {
    forall i, j | 0 <= i < j < |chapters| :: chapters[i].id != chapters[j].id
  }

  // ---------------------------------------------------------------- statements

  function Parked(row: Row): Row {
    row.(position := -row.position - 1, start := Some(0), end := Some(1), startPage := None)
  }

  /** The UPDATE's row once rows not in todo are moved away. */
  function ParkedExcept(rows: Table, version: string, todo: set<RowKey>): Table {
    map k | k in rows :: if k.version == version && k !in todo then Parked(rows[k]) else rows[k]
  }

  /** A timestamptz keeps microseconds. */
  function Micros(t: int): int { t / 1000 * 1000 }

  function Stamped(t: Option<int>): Option<int> { if t.None? then None else Some(Micros(t.value)) }

  /** release_at changes to a future time. */
  predicate Reschedules(current: Row, c: Segment, now: int) {
    current.releaseAt != Stamped(c.releaseAt) && c.releaseAt.Some? && Micros(c.releaseAt.value) > Micros(now)
  }

  /** A release time as the table keeps it: cut down to a whole microsecond. */
  ghost predicate CutTo(stored: Option<int>, given: Option<int>) {
    match given
    case None => stored == None
    case Some(t) => stored.Some? && stored.value % 1000 == 0 && stored.value <= t < stored.value + 1000
  }

  /** A rewritten row: released_at is gone if the release time changed and is still to come, else as it was. */
  ghost predicate Retained(was: Row, row: Row, now: int) {
    row.releasedAt ==
      if row.releaseAt != was.releaseAt && row.releaseAt.Some? && row.releaseAt.value > now then None
      else was.releasedAt
  }

  /** Cutting takes the greatest whole microsecond not above a time, so that what is later than the clock
      after cutting is later than the clock itself. */
  lemma MicrosFloor(c: Segment, now: int)
    ensures CutTo(Stamped(c.releaseAt), c.releaseAt)
    ensures forall current: Row :: Reschedules(current, c, now) <==>
              Stamped(c.releaseAt) != current.releaseAt && c.releaseAt.Some? && Stamped(c.releaseAt).value > now
  {}

  /** The inserted or updated row of one chapter. */
  function Upserted(rows: Table, k: RowKey, c: Segment, now: int): Row {
    var released := if k in rows && !Reschedules(rows[k], c, now) then rows[k].releasedAt else None;
    if c.startPage != ""
    then Row(c.position, TrimSpace(c.title), None, None, Stamped(c.releaseAt), Some(c.startPage), released)
    else Row(c.position, TrimSpace(c.title), Some(c.start), Some(c.end), Stamped(c.releaseAt), None, released)
  }

  lemma AdmittedStaysConsistent(rows: Table, k: RowKey, row: Row)
    requires Consistent(rows)
    ensures Admits(rows, k, row) <==> Consistent(rows[k := row])
  {
    var more := rows[k := row];
    if Admits(rows, k, row) {
      forall other | other in more ensures Admits(more, other, more[other]) {
        assert other != k ==> Admits(rows, other, rows[other]) && !Clash(k, row, other, rows[other]);
      }
    }
    if Consistent(more) {
      assert Admits(more, k, more[k]);
      forall other | other in rows ensures !Clash(k, row, other, rows[other]) {
        assert other != k ==> !Clash(k, more[k], other, more[other]);
      }
    }
  }

  class Segments {
    var rows: Table

    constructor ()
      ensures rows == map[]
    {
      rows := map[];
    }

    /** One row change. In a consistent table it goes through exactly when the table stays consistent. */
    method Put(k: RowKey, row: Row) returns (ok: bool)
      modifies this
      ensures ok <==> Admits(old(rows), k, row)
      ensures Consistent(old(rows)) ==> (ok <==> Consistent(old(rows)[k := row]))
      ensures rows == if ok then old(rows)[k := row] else old(rows)
    {
      if Consistent(rows) { AdmittedStaysConsistent(rows, k, row); }
      ok := RangeOk(row) && forall other <- rows :: !Clash(k, row, other, rows[other]);
      if ok { rows := rows[k := row]; }
    }

    /** SELECT ... ORDER BY position. */
    method List(version: string) returns (listing: seq<Segment>)
      requires Consistent(rows)
      ensures IsListing(listing, rows, version)
    {
      hide Ascending, Consistent, SegmentOf;
      listing := [];
      var rest := set k | k in rows && k.version == version;
      assert Listed(listing, rest, rows, version) by { NothingAscending(); }
      while rest != {}
        invariant Listed(listing, rest, rows, version)
      {
        var k := First(rest);
        ListedStep(listing, rest, rows, version, k);
        listing := listing + [SegmentOf(k.id, rows[k])];
        rest := rest - {k};
      }
    }

    method First(rest: set<RowKey>) returns (first: RowKey)
      requires rest != {} && rest <= rows.Keys && Consistent(rows)
      requires forall k <- rest, other <- rest :: k.version == other.version
      ensures first in rest && forall k <- rest :: k == first || rows[first].position < rows[k].position
    {
      first :| first in rest;
      var unseen := rest - {first};
      while unseen != {}
        invariant unseen <= rest && first in rest
        invariant forall k <- rest - unseen :: k == first || rows[first].position < rows[k].position
      {
        var k :| k in unseen;
        assert Admits(rows, k, rows[k]) && !Clash(k, rows[k], first, rows[first]);
        if rows[k].position < rows[first].position { first := k; }
        unseen := unseen - {k};
      }
    }

    method DeleteOthers(version: string, keep: set<string>)
      modifies this
      ensures rows == map k | k in old(rows) && (k.version == version ==> k.id in keep) :: old(rows)[k]
    {
      rows := map k | k in rows && (k.version == version ==> k.id in keep) :: rows[k];
    }

    /** Moves the version's rows to negative positions with null start pages, row by row in any order. */
    method Park(version: string) returns (ok: bool)
      requires Stored(rows)
      modifies this
      ensures ok && rows == ParkedExcept(old(rows), version, {})
    {
      var todo := set k | k in rows && k.version == version;
      ghost var before := rows;
      while todo != {}
        invariant todo <= set k | k in before && k.version == version
        invariant rows == ParkedExcept(before, version, todo)
      {
        var k :| k in todo;
        ParkingAdmits(before, version, todo, k);
        ok := Put(k, Parked(rows[k]));
        todo := todo - {k};
      }
      ok := true;
    }

    /** INSERT ... ON CONFLICT (version, id) DO UPDATE. A text column takes no NUL. The row then reads back as
        the chapter, to the microsecond, and keeps released_at unless release_at changed to a future time. */
    method Upsert(version: string, c: Segment, now: int) returns (r: Outcome)
      modifies this
      ensures r in {Written, ConstraintViolation, BadText}
      ensures r == BadText <==> '\0' in TrimSpace(c.title)
      ensures var k := RowKey(version, c.id);
              && (r == ConstraintViolation <==> r != BadText && !Admits(old(rows), k, Upserted(old(rows), k, c, now)))
              && rows == if r == Written then old(rows)[k := Upserted(old(rows), k, c, now)] else old(rows)
      ensures Consistent(old(rows)) ==> Consistent(rows)
      ensures r == Written && ShapeOk(c) && Trimmed(c.title) ==>
                SegmentOf(c.id, rows[RowKey(version, c.id)]) == c.(releaseAt := Stamped(c.releaseAt))
      ensures r == Written && RowKey(version, c.id) in old(rows) ==>
                Retained(old(rows)[RowKey(version, c.id)], rows[RowKey(version, c.id)], now)
      ensures r == Written ==>
                var row := rows[RowKey(version, c.id)];
                CutTo(row.releaseAt, c.releaseAt) && (RowKey(version, c.id) !in old(rows) ==> row.releasedAt == None)
    {
      hide Consistent, Admits, Trimmed;
      var k := RowKey(version, c.id);
      TrimSpaceTrims(c.title);
      MicrosFloor(c, now);
      if '\0' in TrimSpace(c.title) { return BadText; }
      var ok := Put(k, Upserted(rows, k, c, now));
      r := if ok then Written else ConstraintViolation;
    }

    /** Gives each chapter its id, in place; None is accepted. newID gives the ids generated on the way. */
    method FillIDs(listing: seq<Segment>, chapters: array<Segment>, newID: nat -> string)
      returns (refused: Option<Outcome>)
      requires (forall c <- listing :: c.id != "") && forall i: nat :: newID(i) != ""
      modifies chapters
      ensures refused in {None, Some(NotOfVersion), Some(Repeated)}
      ensures refused == None ==> Filled(listing, old(chapters[..]), chapters[..])
      ensures refused == Some(NotOfVersion) ==> exists c <- old(chapters[..]) :: c.id != "" && c.id !in IDs(listing)
      ensures refused == Some(Repeated) ==> Repeats(listing, old(chapters[..]), chapters[..])
      ensures refused == None ==> Generated(listing, old(chapters[..]), chapters[..], newID, chapters.Length)
      ensures refused == Some(Repeated) && Fresh(listing, newID) ==> RepeatsStored(listing, chapters[..])
    {
      hide Resolves, IDSource, Fresh, FilledTo, MarkerIDs, Repeats, RepeatsStored, Filled, Generated;
      var ids, markers := set c <- listing :: c.id, MarkerIDs(listing);
      var seen: set<string> := {};
      ghost var given := chapters[..];
      NothingFilled(listing, given, newID);
      for i := 0 to chapters.Length
        invariant FilledTo(listing, given, chapters[..], newID, i)
        invariant seen == IDs(chapters[..i])
      {
        assert chapters[i] == given[i] && given[i] in given by { FilledSoFar(listing, given, chapters[..], newID, i); }
        var c := Resolve(listing, ids, markers, chapters[i], newID(i));
        if c.None? { return Some(NotOfVersion); }
        FilledStep(listing, given, chapters[..], newID, i, c.value);
        ghost var next := chapters[..][i := c.value];
        chapters[i] := c.value;
        assert chapters[..] == next && chapters[..i + 1] == chapters[..i] + [c.value];
        if c.value.id in seen { return Some(Repeated); }
        seen := seen + {c.value.id};
      }
      refused := None;
      AllFilled(listing, given, chapters[..], newID);
    }

    /** The delete, park and upsert statements; the ith upsert reads the clock now(i). None of them breaks a
        constraint; only a title with a NUL is refused. */
    method Rewrite(version: string, chapters: seq<Segment>, now: nat -> int) returns (r: Outcome)
      requires Stored(rows) && Authored(chapters) && DistinctIDs(chapters)
      modifies this
      ensures r in {Written, BadText}
      ensures r == Written <==> forall c <- chapters :: '\0' !in TrimSpace(c.title)
      ensures r == Written ==> Between(old(rows), version, chapters, |chapters|, now, rows)
    {
      hide Between, Consistent, Authored, DistinctIDs, Upserted, Admits;
      ghost var before := rows;
      var keep := set c <- chapters :: c.id;
      DeletingStores(rows, version, keep);
      DeleteOthers(version, keep);
      var ok := Park(version);
      if !ok { return ConstraintViolation; }
      NothingWritten(before, version, chapters, now, rows);
      for i := 0 to |chapters|
        invariant Between(before, version, chapters, i, now, rows)
        invariant forall c <- chapters[..i] :: '\0' !in TrimSpace(c.title)
      {
        UpsertAdmits(before, version, chapters, i, now, rows);
        UpsertAdvances(before, version, chapters, i, now, rows);
        assert chapters[i] in chapters;
        r := Upsert(version, chapters[i], now(i));
        if r != Written { return; }
      }
      r := Written;
    }

    /** The statements run in one transaction, which a refusal rolls back. */
    method WriteChapters(version: string, chapters: array<Segment>, now: nat -> int, newID: nat -> string)
      returns (r: Outcome, ghost listing: seq<Segment>)
      requires Stored(rows) && Authored(chapters[..]) && forall i: nat :: newID(i) != ""
      modifies this, chapters
      ensures Stored(rows) && IsListing(listing, old(rows), version)
      ensures r != ConstraintViolation
      ensures r.Unchanged? || r.Written? || r.BadText? ==> Filled(listing, old(chapters[..]), chapters[..])
      ensures r.Unchanged? ==> listing == chapters[..]
      ensures !r.Written? ==> rows == old(rows)
      ensures r.Written? || r.BadText? ==> listing != chapters[..]
      ensures r.Written? ==> forall c <- chapters[..] :: '\0' !in TrimSpace(c.title)
      ensures r.BadText? ==> exists c <- chapters[..] :: '\0' in TrimSpace(c.title)
      ensures r.Written? ==> Between(old(rows), version, chapters[..], chapters.Length, now, rows)
      ensures r.Written? ==> forall i | 0 <= i < chapters.Length ::
                Rewritten(old(rows), RowKey(version, chapters[i].id), chapters[i], now(i), rows)
      ensures r.NotOfVersion? ==> exists c <- old(chapters[..]) :: c.id != "" && c.id !in IDs(listing)
      ensures r.Repeated? ==> Repeats(listing, old(chapters[..]), chapters[..])
      ensures r.Repeated? && Fresh(listing, newID) ==> RepeatsStored(listing, chapters[..])
      ensures old(chapters[..]) == listing ==> r.Unchanged?
      ensures Reauthors(listing, old(chapters[..])) ==> r == if DistinctMarkers(listing) then Unchanged else Repeated
    {
      listing := [];
      var previous := List(version);
      listing := previous;
      ListingStored(listing, rows, version);
      var refused := FillIDs(previous, chapters, newID);
      UnchangedIDs(listing, old(chapters[..]), chapters[..]);
      if refused.Some? {
        ReauthoredIDs(listing, old(chapters[..]), chapters[..]);
        return refused.value, listing;
      }
      FilledStaysAuthored(listing, old(chapters[..]), chapters[..]);
      ReauthoredIDs(listing, old(chapters[..]), chapters[..]);
      if previous == chapters[..] { return Unchanged, listing; }
      var before := rows;
      r := Rewrite(version, chapters[..], now);
      if r != Written {
        rows := before;
        return;
      }
      RewrittenRows(old(rows), version, chapters[..], now, rows);
      RewriteStores(old(rows), version, listing, old(chapters[..]), chapters[..], now, rows);
    }
  }

  /** Its own id when it is one of the version's, else the id stored under its marker, else a new one. */
  method Resolve(listing: seq<Segment>, ids: set<string>, markers: map<string, string>, given: Segment, newID: string)
    returns (r: Option<Segment>)
    requires ids == IDs(listing) && markers == MarkerIDs(listing)
    requires (forall c <- listing :: c.id != "") && newID != ""
    ensures match r
            case None => given.id != "" && given.id !in ids
            case Some(c) => Resolves(listing, given, c) && IDSource(listing, given, c.id, newID)
  {
    var c := given.(title := TrimSpace(given.title));
    if c.id == "" {
      var marker := Marker(c);
      if marker in markers {
        MarkerIDsListed(listing, marker);
        c := c.(id := markers[marker]);
      }
      if c.id == "" { c := c.(id := newID); }
    } else if c.id !in ids {
      return None;
    }
    return Some(c);
  }

  lemma {:induction false} MarkerIDsListed(listing: seq<Segment>, marker: string)
    requires marker in MarkerIDs(listing)
    ensures MarkerIDs(listing)[marker] in IDs(listing)
  {
    if marker != Marker(listing[|listing| - 1]) {
      MarkerIDsListed(listing[..|listing| - 1], marker);
    }
  }

  ghost function IDs(chapters: seq<Segment>): set<string> { set c <- chapters :: c.id }

  /** How a chapter gets its id and title. */
  ghost predicate Resolves(listing: seq<Segment>, given: Segment, c: Segment) {
    && c == given.(id := c.id, title := TrimSpace(given.title)) && c.id != ""
    && (given.id != "" ==> c.id == given.id && given.id in IDs(listing))
    && (given.id == "" && Marker(given) in MarkerIDs(listing) ==> c.id == MarkerIDs(listing)[Marker(given)])
  }

  /** An id is one of the version's, or was generated for a chapter without id whose marker is not stored. */
  ghost predicate IDSource(listing: seq<Segment>, given: Segment, id: string, newID: string) {
    if given.id == "" && Marker(given) !in MarkerIDs(listing) then id == newID else id in IDs(listing)
  }

  ghost predicate Generated(listing: seq<Segment>, given: seq<Segment>, chapters: seq<Segment>,
                            newID: nat -> string, n: nat)
  {
    n <= |given| == |chapters| && forall i: nat | i < n :: IDSource(listing, given[i], chapters[i].id, newID(i))
  }

  /** Generated ids are new: not stored and pairwise distinct. */
  ghost predicate Fresh(listing: seq<Segment>, newID: nat -> string) {
    && (forall i: nat :: newID(i) !in IDs(listing))
    && (forall i: nat, j: nat :: newID(i) == newID(j) ==> i == j)
  }

  /** Two chapters resolved to one stored id. */
  ghost predicate RepeatsStored(listing: seq<Segment>, chapters: seq<Segment>) {
    exists i, j | 0 <= i < j < |chapters| :: chapters[i].id == chapters[j].id && chapters[i].id in IDs(listing)
  }

  /** The first n chapters have their ids. */
  ghost predicate FilledTo(listing: seq<Segment>, given: seq<Segment>, chapters: seq<Segment>,
                           newID: nat -> string, n: nat)
  {
    && Generated(listing, given, chapters, newID, n) && DistinctIDs(chapters[..n])
    && (forall i | 0 <= i < n :: Resolves(listing, given[i], chapters[i]))
    && (forall i | n <= i < |given| :: chapters[i] == given[i])
  }

  lemma NothingFilled(listing: seq<Segment>, given: seq<Segment>, newID: nat -> string)
    ensures FilledTo(listing, given, given, newID, 0)
  {}

  lemma FilledSoFar(listing: seq<Segment>, given: seq<Segment>, chapters: seq<Segment>, newID: nat -> string, n: nat)
    requires FilledTo(listing, given, chapters, newID, n)
    ensures |chapters| == |given| && forall i | n <= i < |given| :: chapters[i] == given[i]
  {}

  lemma AllFilled(listing: seq<Segment>, given: seq<Segment>, chapters: seq<Segment>, newID: nat -> string)
    requires FilledTo(listing, given, chapters, newID, |chapters|)
    ensures Filled(listing, given, chapters) && Generated(listing, given, chapters, newID, |chapters|)
  {
    assert chapters[..|chapters|] == chapters;
  }

  /** The next chapter gets its id; if an earlier one has it already, they repeat each other. */
  lemma FilledStep(listing: seq<Segment>, given: seq<Segment>, chapters: seq<Segment>, newID: nat -> string,
                   n: nat, c: Segment)
    requires FilledTo(listing, given, chapters, newID, n) && n < |chapters|
    requires Resolves(listing, given[n], c) && IDSource(listing, given[n], c.id, newID(n))
    ensures var next := chapters[n := c];
            if c.id !in IDs(chapters[..n]) then FilledTo(listing, given, next, newID, n + 1)
            else Repeats(listing, given, next) && (Fresh(listing, newID) ==> RepeatsStored(listing, next))
  {
    hide Resolves, IDSource, Fresh, RepeatsStored;
    var next := chapters[n := c];
    if c.id in IDs(chapters[..n]) {
      var i :| 0 <= i < n && chapters[..n][i].id == c.id;
      assert next[i].id == next[n].id && Resolves(listing, given[i], next[i]);
      RepeatIsStored(listing, given, next, newID, i, n);
    } else {
      assert next[..n + 1] == chapters[..n] + [c];
    }
  }

  lemma RepeatIsStored(listing: seq<Segment>, given: seq<Segment>, chapters: seq<Segment>, newID: nat -> string,
                       i: nat, j: nat)
    requires Generated(listing, given, chapters, newID, j) && i < j < |chapters|
    requires IDSource(listing, given[j], chapters[j].id, newID(j)) && chapters[i].id == chapters[j].id
    ensures Fresh(listing, newID) ==> RepeatsStored(listing, chapters)
  {
    assert IDSource(listing, given[i], chapters[i].id, newID(i));
  }

  /** An accepted input: every chapter resolved, with pairwise distinct ids. */
  ghost predicate Filled(listing: seq<Segment>, given: seq<Segment>, chapters: seq<Segment>) {
    && |chapters| == |given| && DistinctIDs(chapters)
    && forall i | 0 <= i < |given| :: Resolves(listing, given[i], chapters[i])
  }

  /** Two chapters resolved to one id. */
  ghost predicate Repeats(listing: seq<Segment>, given: seq<Segment>, chapters: seq<Segment>) {
    && |chapters| == |given|
    && exists i, j | 0 <= i < j < |given| ::
      && chapters[i].id == chapters[j].id
      && Resolves(listing, given[i], chapters[i]) && Resolves(listing, given[j], chapters[j])
  }

  ghost predicate DistinctMarkers(listing: seq<Segment>) {
    forall i, j | 0 <= i < j < |listing| :: Marker(listing[i]) != Marker(listing[j])
  }

  /** The stored chapters, authored again in position order without their ids. */
  ghost predicate Reauthors(listing: seq<Segment>, given: seq<Segment>) {
    |given| == |listing| && forall i | 0 <= i < |listing| :: given[i] == listing[i].(id := "")
  }

  /** The table while the first i chapters are written back: every other version untouched, kept chapters
      still parked, the rest of the version's rows gone. */
  ghost predicate Between(before: Table, version: string, chapters: seq<Segment>, i: nat, now: nat -> int, rows: Table)
    requires i <= |chapters|
  {
    && (forall k: RowKey :: k.version != version ==>
          (k in rows <==> k in before) && (k in rows ==> rows[k] == before[k]))
    && (forall k <- rows :: k.version == version ==> k.id in IDs(chapters))
    && (forall j | 0 <= j < i ::
          var k := RowKey(version, chapters[j].id);
          k in rows && rows[k] == Upserted(before, k, chapters[j], now(j)))
    && (forall j | i <= j < |chapters| ::
          var k := RowKey(version, chapters[j].id);
          (k in rows <==> k in before) && (k in rows ==> rows[k] == Parked(before[k])))
  }

  lemma ParkingAdmits(before: Table, version: string, todo: set<RowKey>, k: RowKey)
    requires Stored(before) && k in before && k.version == version && k in todo
    ensures var rows := ParkedExcept(before, version, todo);
            Admits(rows, k, Parked(rows[k])) &&
            rows[k := Parked(rows[k])] == ParkedExcept(before, version, todo - {k})
  {
    ParkedStep(before, version, todo, k);
    forall other | other in before
      ensures !Clash(k, Parked(before[k]), other, ParkedExcept(before, version, todo)[other])
    {
      assert Admits(before, k, before[k]) && !Clash(k, before[k], other, before[other]);
    }
  }

  lemma ParkedStep(before: Table, version: string, todo: set<RowKey>, k: RowKey)
    requires k in before && k.version == version && k in todo
    ensures ParkedExcept(before, version, todo)[k] == before[k]
    ensures ParkedExcept(before, version, todo)[k := Parked(before[k])] == ParkedExcept(before, version, todo - {k})
  {
    hide Parked;
  }

  lemma DeletingStores(rows: Table, version: string, keep: set<string>)
    requires Stored(rows)
    ensures Stored(map k | k in rows && (k.version == version ==> k.id in keep) :: rows[k])
  {
    forall k | k in rows ensures Admits(rows, k, rows[k]) {}
  }

  lemma NothingWritten(before: Table, version: string, chapters: seq<Segment>, now: nat -> int, rows: Table)
    requires rows == ParkedExcept(
      map k | k in before && (k.version == version ==> k.id in IDs(chapters)) :: before[k], version, {})
    ensures Between(before, version, chapters, 0, now, rows)
  {}

  /** Two authored chapters never clash, however they are stored. */
  lemma AuthoredPair(before: Table, version: string, chapters: seq<Segment>, i: nat, j: nat, now: nat -> int)
    requires Authored(chapters) && i < |chapters| && j < |chapters|
    ensures var k, other := RowKey(version, chapters[i].id), RowKey(version, chapters[j].id);
            && RangeOk(Upserted(before, k, chapters[i], now(i))) && chapters[i].position >= 0
            && (i != j ==>
                !Clash(k, Upserted(before, k, chapters[i], now(i)),
                       other, Upserted(before, other, chapters[j], now(j))))
  {
    assert chapters[i] in chapters;
    if i < j {
      assert chapters[i].position != chapters[j].position;
    } else if j < i {
      assert chapters[j].position != chapters[i].position;
    }
  }

  lemma UpsertAdmits(before: Table, version: string, chapters: seq<Segment>, i: nat, now: nat -> int, rows: Table)
    requires Authored(chapters) && i < |chapters| && Between(before, version, chapters, i, now, rows)
    requires forall k <- before :: before[k].position >= 0
    ensures var k := RowKey(version, chapters[i].id); Admits(rows, k, Upserted(rows, k, chapters[i], now(i)))
  {
    hide Authored, RangeOk;
    var k := RowKey(version, chapters[i].id);
    var row := Upserted(before, k, chapters[i], now(i));
    assert row == Upserted(rows, k, chapters[i], now(i));
    AuthoredPair(before, version, chapters, i, i, now);
    forall other | other in rows && other.version == version && other != k ensures !Clash(k, row, other, rows[other]) {
      var j :| 0 <= j < |chapters| && chapters[j].id == other.id;
      assert other == RowKey(version, chapters[j].id);
      AuthoredPair(before, version, chapters, i, j, now);
    }
  }

  lemma UpsertAdvances(before: Table, version: string, chapters: seq<Segment>, i: nat, now: nat -> int, rows: Table)
    requires DistinctIDs(chapters) && i < |chapters| && Between(before, version, chapters, i, now, rows)
    ensures var k := RowKey(version, chapters[i].id);
            Between(before, version, chapters, i + 1, now, rows[k := Upserted(rows, k, chapters[i], now(i))])
  {
    hide Upserted, Parked;
    var k := RowKey(version, chapters[i].id);
    UpsertedAgrees(before, version, chapters, i, now, rows);
    assert k.id in IDs(chapters);
    forall j | 0 <= j < |chapters| && j != i ensures RowKey(version, chapters[j].id) != k {
      OtherID(chapters, i, j);
    }
  }

  lemma OtherID(chapters: seq<Segment>, i: nat, j: nat)
    requires DistinctIDs(chapters) && i < |chapters| && j < |chapters| && i != j
    ensures chapters[i].id != chapters[j].id
  {}

  /** Parking does not change what the upsert makes of a row. */
  lemma UpsertedAgrees(before: Table, version: string, chapters: seq<Segment>, i: nat, now: nat -> int, rows: Table)
    requires i < |chapters| && Between(before, version, chapters, i, now, rows)
    ensures var k := RowKey(version, chapters[i].id);
            Upserted(rows, k, chapters[i], now(i)) == Upserted(before, k, chapters[i], now(i))
  {}

  lemma ListingStored(listing: seq<Segment>, rows: Table, version: string)
    requires Stored(rows) && IsListing(listing, rows, version)
    ensures DistinctIDs(listing)
    ensures forall c <- listing :: c.id != "" && Trimmed(c.title)
  {
    forall i, j | 0 <= i < j < |listing| ensures listing[i].id != listing[j].id {
      assert listing[i] in listing && listing[j] in listing;
    }
  }

  /** A listed marker resolves to the last chapter listed with it. */
  lemma {:induction false} MarkerIDsCover(listing: seq<Segment>, i: nat) returns (j: nat)
    requires i < |listing|
    ensures i <= j < |listing| && Marker(listing[j]) == Marker(listing[i])
    ensures Marker(listing[i]) in MarkerIDs(listing) && MarkerIDs(listing)[Marker(listing[i])] == listing[j].id
  {
    var last := |listing| - 1;
    if Marker(listing[i]) == Marker(listing[last]) {
      j := last;
    } else {
      j := MarkerIDsCover(listing[..last], i);
    }
  }

  /** Chapters authored again without ids get their stored ids back exactly when no marker is shared. */
  lemma ReauthoredIDs(listing: seq<Segment>, given: seq<Segment>, chapters: seq<Segment>)
    requires DistinctIDs(listing) && forall c <- listing :: Trimmed(c.title)
    requires |chapters| == |given|
    ensures Reauthors(listing, given) && Filled(listing, given, chapters) ==>
              DistinctMarkers(listing) && chapters == listing
    ensures Reauthors(listing, given) && DistinctMarkers(listing) ==>
              forall i, j | 0 <= i < j < |given|
                && Resolves(listing, given[i], chapters[i]) && Resolves(listing, given[j], chapters[j]) ::
                chapters[i].id != chapters[j].id
  {
    if Reauthors(listing, given) {
      forall i | 0 <= i < |given| && Resolves(listing, given[i], chapters[i])
        ensures Marker(listing[i]) in MarkerIDs(listing) && chapters[i].id == MarkerIDs(listing)[Marker(listing[i])]
        ensures DistinctMarkers(listing) ==> chapters[i] == listing[i]
      {
        var j := MarkerIDsCover(listing, i);
        assert Marker(given[i]) == Marker(listing[i]);
        TrimSpaceTrims(listing[i].title);
        assert listing[i] in listing;
      }
    }
  }

  /** Giving the stored chapters back, ids and all, is accepted and changes nothing. */
  lemma UnchangedIDs(listing: seq<Segment>, given: seq<Segment>, chapters: seq<Segment>)
    requires DistinctIDs(listing) && forall c <- listing :: c.id != "" && Trimmed(c.title)
    ensures given == listing ==> !Repeats(listing, given, chapters)
    ensures given == listing && Filled(listing, given, chapters) ==> chapters == listing
  {
    forall i | 0 <= i < |given| && given == listing && |chapters| == |given| && Resolves(listing, given[i], chapters[i])
      ensures chapters[i] == listing[i]
    {
      assert listing[i] in listing;
      TrimSpaceTrims(listing[i].title);
    }
  }

  lemma FilledStaysAuthored(listing: seq<Segment>, given: seq<Segment>, chapters: seq<Segment>)
    requires Filled(listing, given, chapters) && Authored(given)
    ensures Authored(chapters)
  {
    forall i | 0 <= i < |chapters| ensures ShapeOk(chapters[i]) {
      assert Resolves(listing, given[i], chapters[i]) && given[i] in given;
    }
  }

  lemma RewriteStores(before: Table, version: string, listing: seq<Segment>, given: seq<Segment>,
                      chapters: seq<Segment>, now: nat -> int, rows: Table)
    requires Stored(before) && Authored(chapters) && Filled(listing, given, chapters)
    requires Between(before, version, chapters, |chapters|, now, rows)
    ensures Stored(rows)
  {
    forall k | k in rows
      ensures Admits(rows, k, rows[k]) && k.id != "" && rows[k].position >= 0 && Trimmed(rows[k].title)
    {
      if k.version == version {
        var i :| 0 <= i < |chapters| && chapters[i].id == k.id;
        assert Resolves(listing, given[i], chapters[i]);
        WrittenRowStored(before, version, chapters, i, now, rows);
      } else {
        OtherRowStored(before, version, chapters, now, rows, k);
      }
    }
  }

  lemma WrittenRowStored(before: Table, version: string, chapters: seq<Segment>, i: nat, now: nat -> int, rows: Table)
    requires Authored(chapters) && Between(before, version, chapters, |chapters|, now, rows) && i < |chapters|
    ensures var k := RowKey(version, chapters[i].id);
            Admits(rows, k, rows[k]) && rows[k].position >= 0 && Trimmed(rows[k].title)
  {
    hide Authored;
    var k := RowKey(version, chapters[i].id);
    AuthoredPair(before, version, chapters, i, i, now);
    TrimSpaceTrims(chapters[i].title);
    forall other | other in rows && other.version == version && other != k
      ensures !Clash(k, rows[k], other, rows[other])
    {
      var j :| 0 <= j < |chapters| && chapters[j].id == other.id;
      assert other == RowKey(version, chapters[j].id);
      AuthoredPair(before, version, chapters, i, j, now);
    }
  }

  lemma OtherRowStored(before: Table, version: string, chapters: seq<Segment>, now: nat -> int, rows: Table, k: RowKey)
    requires Stored(before) && Between(before, version, chapters, |chapters|, now, rows)
    requires k in rows && k.version != version
    ensures Admits(rows, k, rows[k]) && k.id != "" && rows[k].position >= 0 && Trimmed(rows[k].title)
  {
    assert Admits(before, k, before[k]);
    forall other | other in rows && other.version == k.version ensures !Clash(k, rows[k], other, rows[other]) {
      assert !Clash(k, before[k], other, before[other]);
    }
  }

  /** The chapters as the table keeps them: release times to the microsecond. */
  function AsStored(chapters: seq<Segment>): seq<Segment> {
    seq(|chapters|, i requires 0 <= i < |chapters| => chapters[i].(releaseAt := Stamped(chapters[i].releaseAt)))
  }

  lemma ReadsBackOne(before: Table, version: string, listing: seq<Segment>, given: seq<Segment>,
                     chapters: seq<Segment>, i: nat, now: nat -> int, rows: Table)
    requires Authored(chapters) && Filled(listing, given, chapters) && i < |chapters|
    requires Between(before, version, chapters, |chapters|, now, rows)
    ensures var k := RowKey(version, chapters[i].id);
            k in rows && SegmentOf(k.id, rows[k]) == AsStored(chapters)[i]
  {
    hide TrimSpace, Stamped;
    assert Resolves(listing, given[i], chapters[i]) && chapters[i] in chapters;
    TrimSpaceTrims(given[i].title);
    TrimSpaceTrims(chapters[i].title);
  }

  /** What a write makes of one row: a new one is not released, a retained one keeps released_at unless its
      release time changed to one still to come. */
  ghost predicate Rewritten(before: Table, k: RowKey, c: Segment, now: int, rows: Table) {
    && k in rows && CutTo(rows[k].releaseAt, c.releaseAt)
    && if k in before then Retained(before[k], rows[k], now) else rows[k].releasedAt == None
  }

  lemma RewrittenRows(before: Table, version: string, chapters: seq<Segment>, now: nat -> int, rows: Table)
    requires Between(before, version, chapters, |chapters|, now, rows)
    ensures forall i | 0 <= i < |chapters| ::
              Rewritten(before, RowKey(version, chapters[i].id), chapters[i], now(i), rows)
  {
    forall i | 0 <= i < |chapters|
      ensures Rewritten(before, RowKey(version, chapters[i].id), chapters[i], now(i), rows)
    {
      MicrosFloor(chapters[i], now(i));
      hide Reschedules, Stamped, TrimSpace;
    }
  }

  /** What a write leaves reads back as exactly the chapters given, to the microsecond, and released_at is
      kept unless release_at changed to a future time. */
  lemma ReadsBack(before: Table, version: string, listing: seq<Segment>, given: seq<Segment>,
                  chapters: seq<Segment>, now: nat -> int, rows: Table)
    requires Authored(chapters) && Ascending(chapters) && Filled(listing, given, chapters)
    requires Between(before, version, chapters, |chapters|, now, rows)
    ensures forall again :: IsListing(again, rows, version) <==> again == AsStored(chapters)
    ensures AsStored(chapters) == chapters <==>
              forall c <- chapters :: c.releaseAt.Some? ==> c.releaseAt.value % 1000 == 0
    ensures forall i | 0 <= i < |chapters| :: CutTo(AsStored(chapters)[i].releaseAt, chapters[i].releaseAt)
    ensures forall i | 0 <= i < |chapters| ::
              Rewritten(before, RowKey(version, chapters[i].id), chapters[i], now(i), rows)
  {
    WholeMicros(chapters);
    RewrittenRows(before, version, chapters, now, rows);
    assert forall k <- rows :: k.version == version ==> k.id in IDs(chapters);
    forall i | 0 <= i < |chapters|
      ensures var k := RowKey(version, chapters[i].id);
              k in rows && SegmentOf(k.id, rows[k]) == AsStored(chapters)[i]
      ensures CutTo(AsStored(chapters)[i].releaseAt, chapters[i].releaseAt)
    {
      ReadsBackOne(before, version, listing, given, chapters, i, now, rows);
      MicrosFloor(chapters[i], now(i));
    }
    hide Between, Filled, Authored, SegmentOf, IsListing, Rewritten, CutTo;
    StoredIsListing(rows, version, chapters);
    hide AsStored, Ascending;
    forall again | IsListing(again, rows, version) ensures again == AsStored(chapters) {
      ListingUnique(again, AsStored(chapters), rows, version);
    }
  }

  lemma StoredIsListing(rows: Table, version: string, chapters: seq<Segment>)
    requires Ascending(chapters) && forall k <- rows :: k.version == version ==> k.id in IDs(chapters)
    requires forall i | 0 <= i < |chapters| ::
               var k := RowKey(version, chapters[i].id);
               k in rows && SegmentOf(k.id, rows[k]) == AsStored(chapters)[i]
    ensures IsListing(AsStored(chapters), rows, version)
  {
    hide SegmentOf, Stamped;
    var stored := AsStored(chapters);
    assert forall i | 0 <= i < |chapters| :: stored[i].id == chapters[i].id;
    forall k | k in rows && k.version == version ensures SegmentOf(k.id, rows[k]) in stored {
      var i :| 0 <= i < |chapters| && chapters[i].id == k.id;
      assert k == RowKey(version, chapters[i].id) && stored[i] in stored;
    }
  }

  lemma WholeMicros(chapters: seq<Segment>)
    ensures AsStored(chapters) == chapters <==>
              forall c <- chapters :: c.releaseAt.Some? ==> c.releaseAt.value % 1000 == 0
  {
    if AsStored(chapters) == chapters {
      forall c | c in chapters ensures Stamped(c.releaseAt) == c.releaseAt {
        var i :| 0 <= i < |chapters| && chapters[i] == c;
        assert AsStored(chapters)[i] == c;
      }
    } else {
      var i :| 0 <= i < |chapters| && AsStored(chapters)[i] != chapters[i];
      assert chapters[i] in chapters;
    }
  }

  lemma ListingUnique(a: seq<Segment>, b: seq<Segment>, rows: Table, version: string)
    requires IsListing(a, rows, version) && IsListing(b, rows, version)
    ensures a == b
  {
    forall c | c in a ensures c in b {
      assert c == SegmentOf(c.id, rows[RowKey(version, c.id)]);
    }
    forall c | c in b ensures c in a {
      assert c == SegmentOf(c.id, rows[RowKey(version, c.id)]);
    }
    SortedUnique(a, b);
  }

  lemma {:induction false} SortedUnique(a: seq<Segment>, b: seq<Segment>)
    requires Ascending(a) && Ascending(b) && (forall c <- a :: c in b) && (forall c <- b :: c in a)
    ensures a == b
    decreases a
  {
    assert a != [] ==> a[0] in b;
    assert b != [] ==> b[0] in a;
    if a != [] {
      HeadIsLeast(a, b[0]);
      HeadIsLeast(b, a[0]);
      TailHolds(a, b);
      TailHolds(b, a);
      hide Ascending;
      SortedUnique(a[1..], b[1..]);
      assert a == [a[0]] + a[1..] && b == [b[0]] + b[1..];
    }
  }

  lemma HeadIsLeast(a: seq<Segment>, c: Segment)
    requires Ascending(a) && c in a
    ensures a[0].position <= c.position
  {}

  lemma TailHolds(a: seq<Segment>, b: seq<Segment>)
    requires a != [] && b != [] && Ascending(a) && Ascending(b) && a[0].position == b[0].position
    requires forall c <- a :: c in b
    ensures a[0] == b[0] && Ascending(a[1..]) && forall c <- a[1..] :: c in b[1..]
  {
    forall i | 0 <= i < |a| ensures exists j :: 0 <= j < |b| && b[j] == a[i] && (j == 0 <==> i == 0) {
      assert a[i] in b;
      var j :| 0 <= j < |b| && b[j] == a[i];
      assert i > 0 ==> a[0].position < a[i].position;
      assert j > 0 ==> b[0].position < b[j].position;
    }
  }
}
