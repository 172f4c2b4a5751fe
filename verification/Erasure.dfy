/**
 The account-deletion protocol over two stores. The account store keeps intents, receipts and the
 optional inbox's fences and is never restored; the catalog keeps each account's lifecycle row and its
 erased-subject row, and can be rolled back to a snapshot. Attempts at one deletion may overlap.
 */
module Erasure {
  import opened Text

  type Actor = string
  type Key = string

  /** A lifecycle row. The table's check constraint (a key exactly while purging) is its shape. */
  datatype Lifecycle = Deleted | Purging(key: Key) | Purged

  /** Never restored. inbox: the optional AuthKit tables exist; erased: recipients with erased_at;
      fenced: recipients this app erased from its inbox scope. */
  datatype Accounts = Accounts(
    intents: set<Actor>, receipts: set<Actor>, inbox: bool, erased: set<Actor>, fenced: set<Actor>)

  /** cleanup maps an erased subject to its engine_cleanup_complete flag. */
  datatype Catalog = Catalog(lifecycle: map<Actor, Lifecycle>, cleanup: map<Actor, bool>)

  /** What an attempt does next, in source order. */
  datatype Phase = Content | Inbox | Effects | Complete | Finish

  datatype Attempt = Attempt(actor: Actor, key: Key, phase: Phase)

  datatype World = World(
    accounts: Accounts, catalog: Catalog, attempts: map<nat, Attempt>, snapshots: seq<Catalog>)

  datatype Event =
    | Begin(id: nat, actor: Actor, newKey: Key)
    | Advance(id: nat)
    | Crash(id: nat)
    | SetDeleted(actor: Actor, deleted: bool)
    | ProvisionInbox
    | EraseRecipient(actor: Actor)
    | TakeSnapshot
    | Restore(snapshot: nat)

  // ---------------------------------------------------------------- rows

  predicate Gone(c: Catalog, a: Actor) { a in c.lifecycle && c.lifecycle[a].Purged? }

  predicate PurgingOrPurged(c: Catalog, a: Actor) { a in c.lifecycle && !c.lifecycle[a].Deleted? }

  predicate CleanedUp(c: Catalog, a: Actor) { a in c.cleanup && c.cleanup[a] }

  // ---------------------------------------------------------------- statements

  function RecordIntent(s: Accounts, a: Actor): Accounts { s.(intents := s.intents + {a}) }

  /** The begin transaction's upsert: purged stays purged, a purging row keeps its key. */
  function BeginPurge(c: Catalog, a: Actor, newKey: Key): Catalog {
    if a in c.lifecycle && !c.lifecycle[a].Deleted? then c
    else c.(lifecycle := c.lifecycle[a := Purging(newKey)])
  }

  /** The content transaction's fence row, on conflict untouched. */
  function FenceSubject(c: Catalog, a: Actor): Catalog {
    if a in c.cleanup then c else c.(cleanup := c.cleanup[a := false])
  }

  /** eraseAccountReceipts: the intent again, and this app's inbox fence when there is an inbox. */
  function FenceInbox(s: Accounts, a: Actor): Accounts {
    var s := RecordIntent(s, a);
    if s.inbox then s.(fenced := s.fenced + {a}) else s
  }

  /** completeErasure's UPDATE touches only an existing row. */
  function MarkCleanedUp(c: Catalog, a: Actor): Catalog {
    if a in c.cleanup then c.(cleanup := c.cleanup[a := true]) else c
  }

  function AddReceipt(s: Accounts, a: Actor): Accounts { s.(receipts := s.receipts + {a}) }

  function FinishPurge(c: Catalog, a: Actor): Catalog {
    if a in c.lifecycle && c.lifecycle[a].Purging? then c.(lifecycle := c.lifecycle[a := Purged]) else c
  }

  function PresentDeleted(c: Catalog, a: Actor, deleted: bool): Catalog {
    if deleted then
      if a in c.lifecycle then c else c.(lifecycle := c.lifecycle[a := Deleted])
    else if a in c.lifecycle && c.lifecycle[a].Deleted? then c.(lifecycle := c.lifecycle - {a})
    else c
  }

  // ---------------------------------------------------------------- queries

  /** accountAnonymizationQuery: receipts, unfinished purges and erased recipients. */
  function Anonymizations(s: Accounts, c: Catalog): set<Actor> {
    s.receipts + (set a | a in c.lifecycle && c.lifecycle[a].Purging?) + if s.inbox then s.erased else {}
  }

  /** accountErasureSubjectsQuery with the anonymizations. */
  function Subjects(s: Accounts, c: Catalog): set<Actor> {
    s.intents + (if s.inbox then s.erased + s.fenced else {}) + Anonymizations(s, c)
  }

  /** One subject's part of the startup query. */
  predicate Blocks(s: Accounts, c: Catalog, a: Actor) {
    && a in Subjects(s, c)
    && !CleanedUp(c, a)
    && (|| (a in s.intents && !PurgingOrPurged(c, a))
        || (a in Anonymizations(s, c) && a in s.receipts && !Gone(c, a))
        || (a !in Anonymizations(s, c) && !PurgingOrPurged(c, a)))
  }

  /** checkErasureReplay answers ErrErasureReplayRequired. */
  predicate Pending(s: Accounts, c: Catalog) { exists a :: a in Subjects(s, c) && Blocks(s, c, a) }

  // ---------------------------------------------------------------- steps

  predicate Blank(a: Actor) { TrimSpace(a) == "" }

  function Init(): World { World(Accounts({}, {}, false, {}, {}), Catalog(map[], map[]), map[], []) }

  /** An attempt's next statement; a finished attempt leaves. */
  function AdvanceAttempt(w: World, id: nat): World
    requires id in w.attempts
  {
    var t := w.attempts[id];
    match t.phase
    case Content =>
      w.(catalog := FenceSubject(w.catalog, t.actor), attempts := w.attempts[id := t.(phase := Inbox)])
    case Inbox =>
      w.(accounts := FenceInbox(w.accounts, t.actor), attempts := w.attempts[id := t.(phase := Effects)])
    case Effects =>
      w.(attempts := w.attempts[id := t.(phase := Complete)])
    case Complete =>
      w.(accounts := AddReceipt(w.accounts, t.actor), catalog := MarkCleanedUp(w.catalog, t.actor),
         attempts := w.attempts[id := t.(phase := Finish)])
    case Finish =>
      w.(catalog := FinishPurge(w.catalog, t.actor), attempts := w.attempts - {id})
  }

  /** One atomic step; an event that cannot happen changes nothing. A restore kills running attempts. */
  function Step(w: World, e: Event): World {
    match e
    case Begin(id, a, newKey) =>
      if Blank(a) || id in w.attempts then w else
        var begun := w.(accounts := RecordIntent(w.accounts, a), catalog := BeginPurge(w.catalog, a, newKey));
        if Gone(begun.catalog, a) then begun
        else begun.(attempts := w.attempts[id := Attempt(a, begun.catalog.lifecycle[a].key, Content)])
    case Advance(id) =>
      if id in w.attempts then AdvanceAttempt(w, id) else w
    case Crash(id) => w.(attempts := w.attempts - {id})
    case SetDeleted(a, deleted) =>
      if Blank(a) then w else w.(catalog := PresentDeleted(w.catalog, a, deleted))
    case ProvisionInbox => w.(accounts := w.accounts.(inbox := true))
    case EraseRecipient(a) =>
      if w.accounts.inbox && a != "" then w.(accounts := w.accounts.(erased := w.accounts.erased + {a})) else w
    case TakeSnapshot => w.(snapshots := w.snapshots + [w.catalog])
    case Restore(i) =>
      if i < |w.snapshots| then w.(catalog := w.snapshots[i], attempts := map[]) else w
  }

  function Run(w: World, events: seq<Event>): World
    decreases events
  {
    if events == [] then w else Run(Step(w, events[0]), events[1..])
  }

  predicate NoRestore(events: seq<Event>) { forall e <- events :: !e.Restore? }

  // ---------------------------------------------------------------- invariant

  /** What one account's rows in any catalog, current or restored, owe the account store. */
  ghost predicate RowsAgree(s: Accounts, c: Catalog, a: Actor) {
    && (PurgingOrPurged(c, a) ==> a in s.intents)
    && (CleanedUp(c, a) ==> a in s.receipts && PurgingOrPurged(c, a))
    && (Gone(c, a) ==> CleanedUp(c, a))
  }

  ghost predicate CatalogAgrees(s: Accounts, c: Catalog) { forall a: Actor :: RowsAgree(s, c, a) }

  ghost predicate AccountsAgree(s: Accounts) {
    && s.receipts <= s.intents && s.fenced <= s.intents
    && (!s.inbox ==> s.erased == {} && s.fenced == {})
    && "" !in s.intents + s.erased
  }

  /** A running attempt holds the row's own key, and its earlier statements have happened. */
  ghost predicate AttemptAgrees(s: Accounts, c: Catalog, t: Attempt) {
    && t.actor in s.intents
    && PurgingOrPurged(c, t.actor)
    && (c.lifecycle[t.actor].Purging? ==> c.lifecycle[t.actor].key == t.key)
    && (!t.phase.Content? ==> t.actor in c.cleanup)
    && (t.phase.Finish? ==> CleanedUp(c, t.actor))
  }

  ghost predicate Inv(w: World) {
    && AccountsAgree(w.accounts)
    && CatalogAgrees(w.accounts, w.catalog)
    && (forall c <- w.snapshots :: CatalogAgrees(w.accounts, c))
    && (forall id <- w.attempts :: AttemptAgrees(w.accounts, w.catalog, w.attempts[id]))
  }

  lemma StepKeepsRows(w: World, e: Event, a: Actor)
    requires Inv(w)
    ensures RowsAgree(Step(w, e).accounts, Step(w, e).catalog, a)
  {
    assert RowsAgree(w.accounts, w.catalog, a);
    if e.Advance? && e.id in w.attempts {
      assert AttemptAgrees(w.accounts, w.catalog, w.attempts[e.id]);
    }
    if e.Restore? && e.snapshot < |w.snapshots| {
      assert w.snapshots[e.snapshot] in w.snapshots;
      assert RowsAgree(w.accounts, w.snapshots[e.snapshot], a);
    }
  }

  lemma StepKeepsAttempt(w: World, e: Event, id: nat)
    requires Inv(w) && id in Step(w, e).attempts
    ensures AttemptAgrees(Step(w, e).accounts, Step(w, e).catalog, Step(w, e).attempts[id])
  {
    if id in w.attempts {
      assert AttemptAgrees(w.accounts, w.catalog, w.attempts[id]);
    }
  }

  lemma StepKeepsInv(w: World, e: Event)
    requires Inv(w)
    ensures Inv(Step(w, e))
  {
    var w' := Step(w, e);
    forall a: Actor ensures RowsAgree(w'.accounts, w'.catalog, a) {
      StepKeepsRows(w, e, a);
    }
    forall id | id in w'.attempts ensures AttemptAgrees(w'.accounts, w'.catalog, w'.attempts[id]) {
      StepKeepsAttempt(w, e, id);
    }
    forall c, a: Actor | c in w'.snapshots ensures RowsAgree(w'.accounts, c, a) {
      assert c in w.snapshots || c == w.catalog;
      assert RowsAgree(w.accounts, c, a);
    }
  }

  lemma {:induction false} RunKeepsInv(w: World, events: seq<Event>)
    requires Inv(w)
    ensures Inv(Run(w, events))
    decreases events
  {
    if events != [] {
      StepKeepsInv(w, events[0]);
      RunKeepsInv(Step(w, events[0]), events[1..]);
    }
  }

  // ---------------------------------------------------------------- the startup gate

  /** What an open gate promises about every recorded deletion. */
  ghost predicate Settled(s: Accounts, c: Catalog) {
    && (forall a <- s.intents :: PurgingOrPurged(c, a))
    && (forall a <- s.receipts :: CleanedUp(c, a))
  }

  /** In every reachable world, after any restores, the gate opens exactly when every intent is
      locally purging or purged and every receipt is locally complete. */
  lemma GateMeaning(w: World)
    requires Inv(w)
    ensures !Pending(w.accounts, w.catalog) <==> Settled(w.accounts, w.catalog)
  {
    var s, c := w.accounts, w.catalog;
    forall a | a in s.intents && !PurgingOrPurged(c, a) ensures Blocks(s, c, a) {
      assert RowsAgree(s, c, a);
    }
    forall a | a in s.receipts && !CleanedUp(c, a) ensures Blocks(s, c, a) {
      assert RowsAgree(s, c, a);
    }
  }

  lemma StepKeepsSettled(w: World, e: Event)
    requires Inv(w) && Settled(w.accounts, w.catalog) && !e.Restore?
    ensures Settled(Step(w, e).accounts, Step(w, e).catalog)
  {}

  /** Once open, the gate stays open until the catalog is restored. */
  lemma {:induction false} GateStaysOpen(w: World, events: seq<Event>)
    requires Inv(w) && !Pending(w.accounts, w.catalog) && NoRestore(events)
    ensures !Pending(Run(w, events).accounts, Run(w, events).catalog)
    decreases events
  {
    if events != [] {
      GateMeaning(w);
      StepKeepsInv(w, events[0]);
      StepKeepsSettled(w, events[0]);
      GateMeaning(Step(w, events[0]));
      GateStaysOpen(Step(w, events[0]), events[1..]);
    }
  }

  /** From empty stores: replay is demanded only after a restore, and an open gate always means that
      every intent is locally purging or purged and every receipt complete. */
  lemma PendingProvesRestore(events: seq<Event>)
    ensures var w := Run(Init(), events);
            && (Pending(w.accounts, w.catalog) ==> !NoRestore(events))
            && (!Pending(w.accounts, w.catalog) <==> Settled(w.accounts, w.catalog))
  {
    assert Inv(Init());
    RunKeepsInv(Init(), events);
    GateMeaning(Run(Init(), events));
    if NoRestore(events) {
      GateStaysOpen(Init(), events);
    }
  }

  // ---------------------------------------------------------------- keys and late attempts

  /** A row that is purging under one key, or purged. */
  predicate UnderKey(c: Catalog, a: Actor, key: Key) {
    PurgingOrPurged(c, a) && (c.lifecycle[a].Purging? ==> c.lifecycle[a].key == key)
  }

  /** Without a restore, purged is final and a purging row changes only to purged, under its one key. */
  lemma {:induction false} LifecycleOnlyAdvances(w: World, events: seq<Event>, a: Actor, key: Key)
    requires NoRestore(events)
    ensures Gone(w.catalog, a) ==> Gone(Run(w, events).catalog, a)
    ensures UnderKey(w.catalog, a, key) ==> UnderKey(Run(w, events).catalog, a, key)
    decreases events
  {
    if events != [] {
      LifecycleOnlyAdvances(Step(w, events[0]), events[1..], a, key);
    }
  }

  /** Between restores every attempt at one deletion works under the same anonymous key. */
  lemma OneKeyBetweenRestores(w: World, events: seq<Event>, a: Actor, first: nat, k1: Key, later: nat, k2: Key)
    requires Inv(w) && NoRestore(events)
    requires !Blank(a) && first !in w.attempts
    requires later !in Run(Step(w, Begin(first, a, k1)), events).attempts
    ensures var w1 := Step(w, Begin(first, a, k1));
            var w2 := Step(Run(w1, events), Begin(later, a, k2));
            && (first !in w1.attempts ==> later !in w2.attempts)
            && (later in w2.attempts ==>
                  first in w1.attempts && w2.attempts[later].key == w1.attempts[first].key)
  {
    var w1 := Step(w, Begin(first, a, k1));
    LifecycleOnlyAdvances(w1, events, a, if first in w1.attempts then w1.attempts[first].key else k1);
  }

  /** Once the account is purged, whatever an overlapping attempt still does leaves the catalog as it
      is, and its completing statements leave the account store as it is too. */
  lemma LateAttemptChangesNothing(w: World, id: nat)
    requires Inv(w) && id in w.attempts && Gone(w.catalog, w.attempts[id].actor)
    ensures Step(w, Advance(id)).catalog == w.catalog
    ensures !w.attempts[id].phase.Inbox? ==> Step(w, Advance(id)).accounts == w.accounts
    ensures Step(w, Advance(id)).accounts.intents == w.accounts.intents
  {
    var t := w.attempts[id];
    assert RowsAgree(w.accounts, w.catalog, t.actor);
    assert w.accounts.receipts + {t.actor} == w.accounts.receipts;
  }

  /** Hiding an account and restoring it leaves no trace, and never touches a started deletion. */
  lemma RecoveryPeriodIsReversible(w: World, a: Actor)
    ensures a !in w.catalog.lifecycle ==> Run(w, [SetDeleted(a, true), SetDeleted(a, false)]) == w
    ensures forall deleted :: PurgingOrPurged(w.catalog, a) ==> Step(w, SetDeleted(a, deleted)) == w
  {
    RunCons(w, SetDeleted(a, true), [SetDeleted(a, false)]);
    RunCons(Step(w, SetDeleted(a, true)), SetDeleted(a, false), []);
    assert [SetDeleted(a, true)] + [SetDeleted(a, false)] == [SetDeleted(a, true), SetDeleted(a, false)];
    assert [SetDeleted(a, false)] + [] == [SetDeleted(a, false)];
    if a !in w.catalog.lifecycle {
      var c := PresentDeleted(PresentDeleted(w.catalog, a, true), a, false);
      assert Blank(a) || c.lifecycle == w.catalog.lifecycle;
    }
  }

  /** An id of white space only is refused, and no other is: its deletion would record an intent. */
  lemma OnlyBlankIsRefused(w: World, id: nat, a: Actor, key: Key)
    requires id !in w.attempts
    ensures (forall ch <- a :: IsSpace(ch)) ==> Step(w, Begin(id, a, key)) == w
    ensures (exists ch <- a :: !IsSpace(ch)) ==> a in Step(w, Begin(id, a, key)).accounts.intents
  {
    TrimSpaceBlank(a);
  }

  // ---------------------------------------------------------------- one whole deletion

  /** A deletion nothing interrupts. */
  function Script(id: nat, a: Actor, newKey: Key): seq<Event> {
    [Begin(id, a, newKey)] + Statements(id)
  }

  function Statements(id: nat): seq<Event> {
    [Advance(id), Advance(id), Advance(id), Advance(id), Advance(id)]
  }

  lemma {:induction false} RunConcat(w: World, xs: seq<Event>, ys: seq<Event>)
    ensures Run(w, xs + ys) == Run(Run(w, xs), ys)
    decreases xs
  {
    if xs == [] {
      assert xs + ys == ys;
    } else {
      assert (xs + ys)[1..] == xs[1..] + ys;
      RunConcat(Step(w, xs[0]), xs[1..], ys);
    }
  }

  lemma {:induction false} RunCons(w: World, e: Event, rest: seq<Event>)
    ensures Run(w, [e] + rest) == Run(Step(w, e), rest)
  {
    assert ([e] + rest)[1..] == rest;
  }

  lemma RunStatements(w: World, id: nat)
    ensures var e := Advance(id);
            Run(w, Statements(id)) == Step(Step(Step(Step(Step(w, e), e), e), e), e)
  {
    hide Step;
    var e := Advance(id);
    RunCons(w, e, [e, e, e, e]);
    RunCons(Step(w, e), e, [e, e, e]);
    RunCons(Step(Step(w, e), e), e, [e, e]);
    RunCons(Step(Step(Step(w, e), e), e), e, [e]);
    RunCons(Step(Step(Step(Step(w, e), e), e), e), e, []);
    assert Statements(id) == [e] + [e, e, e, e] && [e] + [e, e, e] == [e, e, e, e];
    assert [e] + [] == [e] && [e] + [e] == [e, e] && [e] + [e, e] == [e, e, e];
  }

  /** An uninterrupted deletion, from any consistent world, ends purged, cleaned up and receipted, and fenced
      in an existing inbox. */
  lemma RunScript(w: World, id: nat, a: Actor, newKey: Key)
    requires Inv(w) && !Blank(a) && id !in w.attempts
    ensures var w' := Run(w, Script(id, a, newKey));
            && Gone(w'.catalog, a) && CleanedUp(w'.catalog, a) && a in w'.accounts.receipts
            && (!Gone(w.catalog, a) && w.accounts.inbox ==> a in w'.accounts.fenced)
            && w'.attempts == w.attempts && w'.snapshots == w.snapshots
  {
    var w1 := Step(w, Begin(id, a, newKey));
    StepKeepsInv(w, Begin(id, a, newKey));
    assert RowsAgree(w1.accounts, w1.catalog, a);
    RunCons(w, Begin(id, a, newKey), Statements(id));
    RunStatements(w1, id);
    hide Run, Inv, RowsAgree, AdvanceAttempt;
    if id in w1.attempts {
      FirstStatements(w1, id);
      var e := Advance(id);
      LastStatements(Step(Step(Step(w1, e), e), e), id);
    }
  }

  lemma FirstStatements(w: World, id: nat)
    requires id in w.attempts && w.attempts[id].phase.Content?
    ensures var e, a := Advance(id), w.attempts[id].actor;
            var w' := Step(Step(Step(w, e), e), e);
            && w' == World(w'.accounts, w'.catalog, w.attempts[id := w.attempts[id].(phase := Complete)], w.snapshots)
            && a in w'.catalog.cleanup && w'.catalog.lifecycle == w.catalog.lifecycle
            && (w.accounts.inbox ==> a in w'.accounts.fenced)
  {}

  lemma LastStatements(w: World, id: nat)
    requires id in w.attempts && w.attempts[id].phase.Complete?
    requires w.attempts[id].actor in w.catalog.cleanup && PurgingOrPurged(w.catalog, w.attempts[id].actor)
    ensures var e, a := Advance(id), w.attempts[id].actor;
            var w' := Step(Step(w, e), e);
            && w' == World(w.accounts.(receipts := w.accounts.receipts + {a}), w'.catalog, w.attempts - {id},
                           w.snapshots)
            && Gone(w'.catalog, a) && CleanedUp(w'.catalog, a)
  {}

  /** The gate is no formality: a finished deletion whose catalog is then rolled back is refused. */
  lemma RestoreAfterDeletionIsRefused(a: Actor, key: Key)
    requires !Blank(a)
    ensures var w := Run(Init(), [TakeSnapshot] + Script(0, a, key) + [Restore(0)]);
            Pending(w.accounts, w.catalog) && w.catalog == Init().catalog
  {
    var w0 := Step(Init(), TakeSnapshot);
    assert Inv(w0);
    RunScript(w0, 0, a, key);
    var w6 := Run(w0, Script(0, a, key));
    var w := Step(w6, Restore(0));
    assert w.catalog == Init().catalog && a in w.accounts.receipts;
    assert Blocks(w.accounts, w.catalog, a);
    RunCons(Init(), TakeSnapshot, Script(0, a, key));
    RunConcat(Init(), [TakeSnapshot] + Script(0, a, key), [Restore(0)]);
    RunCons(w6, Restore(0), []);
  }
}
