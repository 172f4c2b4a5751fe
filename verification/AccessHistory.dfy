/**
 The change-only access history: a snapshot is appended only when it differs from the version's latest
 one, and still answers every as-of question like a log of every snapshot.
 */
module AccessHistory {
  import opened Text

  datatype Key = Key(content: string, version: string)

  /** A facet's snapshot object. */
  datatype Facet = Facet(key: Key, snapshot: string)

  /** A history row; its id is its place in the log. Times are as the table keeps them, in microseconds. */
  datatype Row = Row(key: Key, at: int, snapshot: string)

  type Log = seq<Row>

  /** ORDER BY occurred_at DESC, id DESC LIMIT 1 among the key's rows up to t. */
  function LastRow(log: Log, k: Key, t: int): Option<Row> {
    if log == [] then None else
      var row, before := log[|log| - 1], LastRow(log[..|log| - 1], k, t);
      if row.key == k && row.at <= t && (before.None? || before.value.at <= row.at) then Some(row) else before
  }

  function AsOf(log: Log, k: Key, t: int): Option<string> {
    match LastRow(log, k, t) case None => None case Some(row) => Some(row.snapshot)
  }

  /** The latest row at any time. */
  function LatestRow(log: Log, k: Key): Option<Row> {
    if log == [] then None else
      var row, before := log[|log| - 1], LatestRow(log[..|log| - 1], k);
      if row.key == k && (before.None? || before.value.at <= row.at) then Some(row) else before
  }

  function Latest(log: Log, k: Key): Option<string> {
    match LatestRow(log, k) case None => None case Some(row) => Some(row.snapshot)
  }

  /** One statement's rows, compared with the log the statement began with. */
  function Added(log: Log, facets: seq<Facet>, ids: seq<string>, at: int, always: bool): Log {
    if facets == [] then [] else
      var f := facets[|facets| - 1];
      Added(log, facets[..|facets| - 1], ids, at, always)
      + if f.key.content in ids && (always || Latest(log, f.key) != Some(f.snapshot))
         then [Row(f.key, at, f.snapshot)] else []
  }

  class Store {
    var history: Log
    var startedAt: Option<int>

    constructor ()
      ensures history == [] && startedAt == None
    {
      history, startedAt := [], None;
    }

    /** recordAccessHistory: facets are the catalog's current snapshots. */
    method RecordAccessHistory(facets: seq<Facet>, ids: seq<string>, at: int)
      modifies this
      ensures startedAt == if old(startedAt).None? then Some(at) else old(startedAt)
      ensures history == old(history) + Added(old(history), facets, ids, at, false)
    {
      if startedAt.None? { startedAt := Some(at); }
      var rows: Log := [];
      for i := 0 to |facets|
        invariant rows == Added(history, facets[..i], ids, at, false)
      {
        var f := facets[i];
        assert facets[..i + 1][..i] == facets[..i];
        if f.key.content in ids && Latest(history, f.key) != Some(f.snapshot) {
          rows := rows + [Row(f.key, at, f.snapshot)];
        }
      }
      assert facets[..|facets|] == facets;
      history := history + rows;
    }
  }

  // ---------------------------------------------------------------- runs

  /** A call of recordAccessHistory. */
  datatype Call = Call(facets: seq<Facet>, ids: seq<string>, at: int)

  /** The facet table holds each version once. */
  predicate OnePerKey(facets: seq<Facet>) {
    forall i, j | 0 <= i < j < |facets| :: facets[i].key != facets[j].key
  }

  function Recorded(calls: seq<Call>, always: bool): Log {
    if calls == [] then [] else
      var log, c := Recorded(calls[..|calls| - 1], always), calls[|calls| - 1];
      log + Added(log, c.facets, c.ids, c.at, always)
  }

  predicate ClockNeverFalls(calls: seq<Call>) {
    forall i, j | 0 <= i < j < |calls| :: calls[i].at <= calls[j].at
  }

  predicate AllBy(log: Log, t: int) { forall row <- log :: row.at <= t }

  lemma {:induction false} AddedAt(log: Log, facets: seq<Facet>, ids: seq<string>, at: int, always: bool)
    ensures forall row <- Added(log, facets, ids, at, always) :: row.at == at
    decreases facets
  {
    if facets != [] { AddedAt(log, facets[..|facets| - 1], ids, at, always); }
  }

  lemma {:induction false} RecordedBy(calls: seq<Call>, always: bool, t: int)
    requires forall c <- calls :: c.at <= t
    ensures AllBy(Recorded(calls, always), t)
    decreases calls
  {
    if calls != [] {
      var init, c := calls[..|calls| - 1], calls[|calls| - 1];
      assert c in calls && forall d <- init :: d in calls;
      RecordedBy(init, always, t);
      AddedAt(Recorded(init, always), c.facets, c.ids, c.at, always);
    }
  }

  lemma {:induction false} LatestIsAsOf(log: Log, k: Key, t: int)
    requires AllBy(log, t)
    ensures LastRow(log, k, t) == LatestRow(log, k)
    ensures LatestRow(log, k).Some? ==> LatestRow(log, k).value in log
    decreases log
  {
    if log != [] {
      assert log[|log| - 1] in log;
      LatestIsAsOf(log[..|log| - 1], k, t);
    }
  }

  /** The selected facet of a key, if any. */
  function Selected(facets: seq<Facet>, ids: seq<string>, k: Key): Option<string> {
    if facets == [] then None else
      var f := facets[|facets| - 1];
      if f.key == k && k.content in ids then Some(f.snapshot) else Selected(facets[..|facets| - 1], ids, k)
  }

  /** A key's selected snapshot is that of its facet, when its content is asked for. */
  lemma {:induction false} SelectedIs(facets: seq<Facet>, ids: seq<string>, k: Key, snapshot: string)
    requires OnePerKey(facets)
    ensures Selected(facets, ids, k) == Some(snapshot) <==> k.content in ids && Facet(k, snapshot) in facets
    decreases facets
  {
    if facets != [] {
      var init, f := facets[..|facets| - 1], facets[|facets| - 1];
      InitOnePerKey(facets);
      SelectedIs(init, ids, k, snapshot);
      assert facets == init + [f];
      if Facet(k, snapshot) in init { LastKeyIsNew(facets, Facet(k, snapshot)); }
    }
  }

  lemma {:induction false} SelectedAbsent(facets: seq<Facet>, ids: seq<string>, k: Key)
    requires forall f <- facets :: f.key != k
    ensures Selected(facets, ids, k) == None
    decreases facets
  {
    if facets != [] {
      assert facets[|facets| - 1] in facets;
      SelectedAbsent(facets[..|facets| - 1], ids, k);
    }
  }

  lemma AsOfAppended(log: Log, row: Row, k: Key, t: int)
    requires AllBy(log, row.at)
    ensures AsOf(log + [row], k, t) == if row.key == k && row.at <= t then Some(row.snapshot) else AsOf(log, k, t)
  {
    assert (log + [row])[..|log|] == log;
    if row.at <= t {
      LatestIsAsOf(log, k, row.at);
      LatestIsAsOf(log, k, t);
    }
  }

  /** What one call makes of a lookup: from its time on the selected snapshot, before it no change. */
  lemma {:induction false} LookupAfter(log: Log, facets: seq<Facet>, ids: seq<string>, at: int, always: bool,
                                       k: Key, t: int)
    requires AllBy(log, at) && OnePerKey(facets)
    ensures AsOf(log + Added(log, facets, ids, at, always), k, t) ==
              if t < at || Selected(facets, ids, k).None? then AsOf(log, k, t) else Selected(facets, ids, k)
    decreases facets
  {
    hide AsOf, LastRow, LatestRow;
    if facets == [] {
      assert log + [] == log;
    } else {
      var init, f := facets[..|facets| - 1], facets[|facets| - 1];
      var so, now := log + Added(log, init, ids, at, always), log + Added(log, facets, ids, at, always);
      LookupAfter(log, init, ids, at, always, k, t);
      AddedAt(log, init, ids, at, always);
      if now != so {
        assert now == so + [Row(f.key, at, f.snapshot)];
        AsOfAppended(so, Row(f.key, at, f.snapshot), k, t);
      }
      if f.key == k && k.content in ids {
        OnlyOnce(facets, ids);
        if at <= t { LatestNow(log, k, at, t); }
      }
    }
  }

  lemma InitOnePerKey(facets: seq<Facet>)
    requires OnePerKey(facets)
    ensures facets != [] ==> OnePerKey(facets[..|facets| - 1])
  {}

  lemma OnlyOnce(facets: seq<Facet>, ids: seq<string>)
    requires OnePerKey(facets) && facets != []
    ensures Selected(facets[..|facets| - 1], ids, facets[|facets| - 1].key) == None
  {
    var init := facets[..|facets| - 1];
    forall g | g in init ensures g.key != facets[|facets| - 1].key { LastKeyIsNew(facets, g); }
    SelectedAbsent(init, ids, facets[|facets| - 1].key);
  }

  lemma LatestNow(log: Log, k: Key, at: int, t: int)
    requires AllBy(log, at) && at <= t
    ensures AsOf(log, k, t) == Latest(log, k)
  {
    LatestIsAsOf(log, k, t);
  }

  /** With a clock that never falls, the change-only history answers like a log of every snapshot, for
      every version and time after any run of calls. */
  lemma {:induction false} ChangeOnlyAgrees(calls: seq<Call>, k: Key, t: int)
    requires ClockNeverFalls(calls) && forall c <- calls :: OnePerKey(c.facets)
    ensures AsOf(Recorded(calls, false), k, t) == AsOf(Recorded(calls, true), k, t)
    decreases calls
  {
    if calls != [] {
      var init, c := calls[..|calls| - 1], calls[|calls| - 1];
      assert c in calls && forall d <- init :: d in calls && d.at <= c.at;
      ChangeOnlyAgrees(init, k, t);
      RecordedBy(init, false, c.at);
      RecordedBy(init, true, c.at);
      LookupAfter(Recorded(init, false), c.facets, c.ids, c.at, false, k, t);
      LookupAfter(Recorded(init, true), c.facets, c.ids, c.at, true, k, t);
    }
  }

  /** Calls at given times. */
  ghost predicate CallsAt(calls: seq<Call>, times: seq<int>) {
    && |calls| == |times|
    && forall i | 0 <= i < |calls| :: calls[i].at == times[i] && OnePerKey(calls[i].facets)
  }

  ghost predicate AlwaysAgree(times: seq<int>) {
    forall calls: seq<Call>, k: Key, t: int | CallsAt(calls, times) ::
      AsOf(Recorded(calls, false), k, t) == AsOf(Recorded(calls, true), k, t)
  }

  /** Which clocks the change-only history works under: exactly those that never fall. */
  lemma AgreesExactlyOnRisingClocks(times: seq<int>)
    ensures AlwaysAgree(times) <==> forall i, j | 0 <= i < j < |times| :: times[i] <= times[j]
  {
    if i, j :| 0 <= i < j < |times| && times[i] > times[j] {
      FallingClockLosesAChange(times, i, j, Key("c", "v"));
    } else {
      hide AsOf, Recorded, OnePerKey;
      forall calls: seq<Call>, k: Key, t: int | CallsAt(calls, times)
        ensures AsOf(Recorded(calls, false), k, t) == AsOf(Recorded(calls, true), k, t)
      {
        ChangeOnlyAgrees(calls, k, t);
      }
    }
  }

  /** The snapshot A is recorded by calls i and j; the others record nothing. */
  function TwoCalls(times: seq<int>, i: int, j: int, k: Key): seq<Call> {
    seq(|times|, m requires 0 <= m < |times| =>
      Call(if m == i || m == j then [Facet(k, "A")] else [], [k.content], times[m]))
  }

  /** Whenever the clock falls, from call i to call j, an unchanged snapshot can be missing from the time
      of call j on: call j takes it for recorded, though only at the later time of call i. */
  lemma FallingClockLosesAChange(times: seq<int>, i: nat, j: nat, k: Key)
    requires i < j < |times| && times[i] > times[j]
    ensures var calls := TwoCalls(times, i, j, k);
            && CallsAt(calls, times)
            && AsOf(Recorded(calls, false), k, times[j]) == None
            && AsOf(Recorded(calls, true), k, times[j]) == Some("A")
  {
    var calls := TwoCalls(times, i, j, k);
    TwoCallsRecord(times, i, j, k, false);
    TwoCallsRecord(times, i, j, k, true);
    var hi, lo := Row(k, times[i], "A"), Row(k, times[j], "A");
    RowsAsOf(hi, lo);
  }

  lemma RowsAsOf(hi: Row, lo: Row)
    requires hi.key == lo.key && hi.at > lo.at
    ensures Latest([hi], hi.key) == Some(hi.snapshot) && AsOf([hi], hi.key, lo.at) == None
    ensures AsOf([hi, lo], hi.key, lo.at) == Some(lo.snapshot)
  {
    assert LatestRow([], hi.key) == LastRow([], hi.key, lo.at) == None;
    assert [hi, lo][..1] == [hi] && [hi][..0] == [];
  }

  lemma TwoCallsRecord(times: seq<int>, i: nat, j: nat, k: Key, always: bool)
    requires i < j < |times| && times[i] > times[j]
    ensures var hi, lo := Row(k, times[i], "A"), Row(k, times[j], "A");
            Recorded(TwoCalls(times, i, j, k), always) == if always then [hi, lo] else [hi]
  {
    hide TwoCalls, Recorded, Added;
    var calls := TwoCalls(times, i, j, k);
    TwoCallsAre(times, i, j, k);
    NothingRecorded(calls, always);
    RecordedOne(calls, 0, i, k, always);
    AddedByOne(k, times[i], times[i], always);
    assert Recorded(calls[..i + 1], always) == [Row(k, times[i], "A")];
    RecordedOne(calls, i + 1, j, k, always);
    AddedByOne(k, times[i], times[j], always);
    QuietCalls(calls, j + 1, |calls|, always);
    assert calls[..|calls|] == calls;
  }

  lemma TwoCallsAre(times: seq<int>, i: nat, j: nat, k: Key)
    requires i < j < |times|
    ensures var calls := TwoCalls(times, i, j, k);
            && |calls| == |times|
            && calls[i] == Call([Facet(k, "A")], [k.content], times[i])
            && calls[j] == Call([Facet(k, "A")], [k.content], times[j])
            && forall m | 0 <= m < |calls| && m != i && m != j :: calls[m].facets == []
  {}

  lemma NothingRecorded(calls: seq<Call>, always: bool)
    ensures Recorded(calls[..0], always) == []
  {}

  /** Quiet calls, and then one that selects k's snapshot. */
  lemma RecordedOne(calls: seq<Call>, n: nat, i: nat, k: Key, always: bool)
    requires n <= i < |calls| && calls[i] == Call([Facet(k, "A")], [k.content], calls[i].at)
    requires forall m | n <= m < i :: calls[m].facets == []
    ensures var log := Recorded(calls[..n], always);
            Recorded(calls[..i + 1], always) == log + Added(log, [Facet(k, "A")], [k.content], calls[i].at, always)
  {
    hide Recorded, Added;
    QuietCalls(calls, n, i, always);
    RecordedNext(calls, i + 1, always);
  }

  /** Calls that select nothing record nothing. */
  lemma {:induction false} QuietCalls(calls: seq<Call>, i: nat, j: nat, always: bool)
    requires i <= j <= |calls| && forall m | i <= m < j :: calls[m].facets == []
    ensures Recorded(calls[..j], always) == Recorded(calls[..i], always)
    decreases j
  {
    if i < j {
      QuietCalls(calls, i, j - 1, always);
      RecordedNext(calls, j, always);
      var log := Recorded(calls[..i], always);
      assert Added(log, calls[j - 1].facets, calls[j - 1].ids, calls[j - 1].at, always) == [] && log + [] == log;
    }
  }

  lemma RecordedNext(calls: seq<Call>, n: nat, always: bool)
    requires 0 < n <= |calls|
    ensures var log, c := Recorded(calls[..n - 1], always), calls[n - 1];
            Recorded(calls[..n], always) == log + Added(log, c.facets, c.ids, c.at, always)
  {
    assert calls[..n][..n - 1] == calls[..n - 1] && calls[..n][n - 1] == calls[n - 1];
  }

  lemma AddedByOne(k: Key, hi: int, at: int, always: bool)
    ensures Added([], [Facet(k, "A")], [k.content], at, always) == [Row(k, at, "A")]
    ensures Added([Row(k, hi, "A")], [Facet(k, "A")], [k.content], at, always) ==
              if always then [Row(k, at, "A")] else []
  {
    assert [Facet(k, "A")][..0] == [] && [Row(k, hi, "A")][..0] == [];
    assert Latest([], k) == None && LatestRow([Row(k, hi, "A")], k) == Some(Row(k, hi, "A"));
  }

  // ---------------------------------------------------------------- no repeats

  predicate Rising(log: Log) { forall i, j | 0 <= i < j < |log| :: log[i].at <= log[j].at }

  /** j is the key's next row after i. */
  predicate Next(log: Log, i: nat, j: nat) {
    && i < j < |log| && log[i].key == log[j].key
    && forall m | i < m < j :: log[m].key != log[i].key
  }

  ghost predicate NoRepeats(log: Log) {
    forall i: nat, j: nat :: Next(log, i, j) ==> log[i].snapshot != log[j].snapshot
  }

  /** In a rising log the latest row of a key is its last one. */
  lemma {:induction false} LatestIsLast(log: Log, i: nat)
    requires Rising(log) && i < |log| && forall m | i < m < |log| :: log[m].key != log[i].key
    ensures LatestRow(log, log[i].key) == Some(log[i])
    decreases log
  {
    var init := log[..|log| - 1];
    if i < |init| {
      LatestIsLast(init, i);
    } else {
      LatestIsAsOf(init, log[i].key, log[i].at);
    }
  }

  /** A row appended after others of its own statement, none with its key, repeats nothing. */
  lemma AppendNoRepeats(log: Log, so: Log, row: Row)
    requires log <= so && Rising(log) && NoRepeats(so) && AllBy(log, row.at)
    requires forall m | |log| <= m < |so| :: so[m].key != row.key
    requires Latest(log, row.key) != Some(row.snapshot)
    ensures NoRepeats(so + [row])
  {
    var more := so + [row];
    forall i: nat, j: nat | Next(more, i, j) ensures more[i].snapshot != more[j].snapshot {
      assert forall m | 0 <= m < |so| :: so[m] == more[m];
      if j < |so| {
        assert Next(so, i, j);
      } else {
        assert i < |log| && log[i] == more[i];
        assert forall m | i < m < |log| :: log[m] == more[m];
        LatestIsLast(log, i);
      }
    }
  }

  lemma LastKeyIsNew(facets: seq<Facet>, g: Facet)
    requires OnePerKey(facets) && facets != [] && g in facets[..|facets| - 1]
    ensures g.key != facets[|facets| - 1].key
  {
    var i :| 0 <= i < |facets| - 1 && facets[i] == g;
  }

  /** One call keeps the log rising and free of repeats. */
  lemma {:induction false} AddedNoRepeats(log: Log, facets: seq<Facet>, ids: seq<string>, at: int)
    requires Rising(log) && AllBy(log, at) && NoRepeats(log) && OnePerKey(facets)
    ensures var more := log + Added(log, facets, ids, at, false);
            && Rising(more) && NoRepeats(more)
            && forall m | |log| <= m < |more| :: exists f <- facets :: f.key == more[m].key
    decreases facets
  {
    hide NoRepeats, Next, LatestRow, Latest, OnePerKey;
    InitOnePerKey(facets);
    if facets == [] {
      assert log + [] == log;
    } else {
      var init, f := facets[..|facets| - 1], facets[|facets| - 1];
      AddedNoRepeats(log, init, ids, at);
      AddedAt(log, init, ids, at, false);
      var so, more := log + Added(log, init, ids, at, false), log + Added(log, facets, ids, at, false);
      if more != so {
        assert more == so + [Row(f.key, at, f.snapshot)];
        forall m | |log| <= m < |so| ensures so[m].key != f.key {
          var g :| g in init && g.key == so[m].key;
          LastKeyIsNew(facets, g);
        }
        AppendNoRepeats(log, so, Row(f.key, at, f.snapshot));
        assert f in facets;
      }
    }
  }

  /** No two consecutive rows of a version are equal, after any run of calls under such a clock. */
  lemma {:induction false} RecordedHasNoRepeats(calls: seq<Call>)
    requires ClockNeverFalls(calls) && forall c <- calls :: OnePerKey(c.facets)
    ensures Rising(Recorded(calls, false)) && NoRepeats(Recorded(calls, false))
    decreases calls
  {
    if calls != [] {
      var init, c := calls[..|calls| - 1], calls[|calls| - 1];
      assert c in calls && forall d <- init :: d in calls && d.at <= c.at;
      RecordedHasNoRepeats(init);
      RecordedBy(init, false, c.at);
      AddedNoRepeats(Recorded(init, false), c.facets, c.ids, c.at);
    }
  }
}
