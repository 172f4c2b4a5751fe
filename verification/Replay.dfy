/** AnonymizeAccount and the two operator replays, statement by statement over the two stores. */
module Replay {
  import opened Lex
  import opened Sorting
  import opened Erasure

  /** min(1000, signal.MaxErasureSubjects). */
  const PAGE_SIZE: nat := 100

  function AtRest(s: Accounts, c: Catalog): World { World(s, c, map[], []) }

  /** ORDER BY actor_id LIMIT limit over the subjects above the cursor. */
  ghost predicate IsPage(page: seq<string>, subjects: set<string>, after: string, limit: nat) {
    && |page| <= limit
    && Ascending(page)
    && (forall a <- page :: a in subjects && Less(after, a))
    && (forall a <- subjects :: Less(after, a) && a !in page ==>
          |page| == limit && (page != [] ==> Less(page[|page| - 1], a)))
  }

  method Smallest(rest: set<string>) returns (least: string)
    requires rest != {}
    ensures least in rest && forall a <- rest :: a == least || Less(least, a)
  {
    least :| least in rest;
    var unseen := rest - {least};
    while unseen != {}
      invariant unseen <= rest && least in rest
      invariant forall a <- rest - unseen :: a == least || Less(least, a)
    {
      var a :| a in unseen;
      LessTotal(least, a);
      if Less(a, least) {
        forall b | b in rest - unseen ensures b == a || Less(a, b) {
          if b != least { LessTransitive(a, least, b); }
        }
        least := a;
      }
      unseen := unseen - {a};
    }
  }

  /** One page of a subject query. */
  method SelectPage(subjects: set<string>, after: string, limit: nat) returns (page: seq<string>)
    ensures IsPage(page, subjects, after, limit)
  {
    page := [];
    var rest := set a | a in subjects && Less(after, a);
    while |page| < limit && rest != {}
      invariant |page| <= limit && Ascending(page)
      invariant forall a <- page :: a in subjects && Less(after, a)
      invariant rest <= subjects && forall a <- rest :: Less(after, a) && a !in page
      invariant forall a <- subjects :: Less(after, a) ==> a in page || a in rest
      invariant forall p <- page, a <- rest :: Less(p, a)
      decreases rest
    {
      var least := Smallest(rest);
      LessIrreflexive(least);
      page := page + [least];
      rest := rest - {least};
    }
  }

  /** Moving the cursor to the page's end skips nothing and makes progress. */
  lemma PageCovers(page: seq<string>, subjects: set<string>, after: string, limit: nat)
    requires IsPage(page, subjects, after, limit) && page != []
    ensures var last := page[|page| - 1];
            && last in subjects && Less(after, last) && !Less(last, last)
            && (forall a <- subjects :: Less(after, a) ==> a in page || Less(last, a))
            && (forall a: string :: Less(last, a) ==> Less(after, a))
  {
    var last := page[|page| - 1];
    assert last in page;
    LessIrreflexive(last);
    forall a: string | Less(last, a) ensures Less(after, a) {
      LessTransitive(after, last, a);
    }
  }

  class Engine {
    var accounts: Accounts
    var catalog: Catalog

    ghost predicate Valid()
      reads this
    {
      Inv(AtRest(accounts, catalog))
    }

    ghost function World(): World
      reads this
    {
      AtRest(accounts, catalog)
    }

    constructor (accounts: Accounts, catalog: Catalog)
      requires Inv(AtRest(accounts, catalog))
      ensures Valid() && this.accounts == accounts && this.catalog == catalog
    {
      this.accounts := accounts;
      this.catalog := catalog;
    }

    /** checkErasureReplay. */
    predicate CheckErasureReplay()
      reads this
    {
      !Pending(accounts, catalog)
    }

    /** Deletes one account. Any statement may fail, as fails says; the attempt then stops where it is. What it did is
        a restore-free run of the protocol, so a replay ends as the live deletion does. */
    method AnonymizeAccount(a: Actor, fails: (Actor, nat) -> bool) returns (ok: bool, ghost events: seq<Event>)
      requires Valid()
      modifies this
      ensures Valid() && NoRestore(events) && World() == Run(old(World()), events)
      ensures ok ==> !Blank(a) && Gone(catalog, a) && CleanedUp(catalog, a) && a in accounts.receipts
      ensures !Blank(a) && Undisturbed(a, fails) ==> ok
      ensures Touches(old(World()), World(), {a})
    {
      hide Inv, Touches, Run;
      events := [];
      ok := false;
      ghost var w0, w := World(), World();
      Idle(w0);
      if Blank(a) { return; }
      if fails(a, 0) { return; }
      var newKey: Key := *;
      // The begin transaction.
      accounts := RecordIntent(accounts, a);
      catalog := BeginPurge(catalog, a, newKey);
      w, events := Started(w0, a, newKey);
      if catalog.lifecycle[a].Purged? { return true, events; }
      if fails(a, 1) { events := Stop(w0, w, events, a); return; }
      catalog := FenceSubject(catalog, a);
      w, events := Next(w0, w, events, a);
      if fails(a, 2) { events := Stop(w0, w, events, a); return; }
      accounts := FenceInbox(accounts, a);
      w, events := Next(w0, w, events, a);
      if fails(a, 3) { events := Stop(w0, w, events, a); return; }
      // The signal plane, searches and avatars.
      w, events := Next(w0, w, events, a);
      if fails(a, 4) { events := Stop(w0, w, events, a); return; }
      // completeErasure's transaction.
      catalog := MarkCleanedUp(catalog, a);
      accounts := AddReceipt(accounts, a);
      w, events := Next(w0, w, events, a);
      if fails(a, 5) { events := Stop(w0, w, events, a); return; }
      catalog := FinishPurge(catalog, a);
      w, events := Next(w0, w, events, a);
      ok := true;
    }

    /** replayAnonymize. */
    method ReplayAnonymize(page: seq<Actor>, fails: (Actor, nat) -> bool)
      returns (ok: bool, ghost events: seq<Event>)
      requires Valid()
      modifies this
      ensures Valid() && NoRestore(events) && World() == Run(old(World()), events)
      ensures ok ==> forall a <- page :: Gone(catalog, a) && !Blank(a)
      ensures !ok ==> exists a <- page :: Blank(a) || !Undisturbed(a, fails)
      ensures Touches(old(World()), World(), Elements(page))
    {
      hide Inv, Run, SameRows, Undisturbed, Blank;
      ok, events := true, [];
      ghost var start := World();
      Idle(start);
      for i := 0 to |page|
        invariant Valid() && NoRestore(events) && World() == Run(start, events)
        invariant ok && forall a <- page[..i] :: Gone(catalog, a) && !Blank(a)
        invariant Touches(start, World(), Elements(page[..i]))
      {
        ghost var before, more := World(), [];
        ok, more := AnonymizeAccount(page[i], fails);
        assert page[i] in page;
        RunConcat(start, events, more);
        TouchesMore(start, before, World(), Elements(page[..i]), {page[i]}, Elements(page));
        assert page[..i + 1] == page[..i] + [page[i]];
        TouchesMore(start, before, World(), Elements(page[..i]), {page[i]}, Elements(page[..i + 1]));
        events := events + more;
        if !ok { return; }
      }
      assert page[..|page|] == page;
    }

    /** Repeats every recorded deletion, page by page. Ok means that all of them are purged and the
        startup gate is open; it ends although each deletion changes what the pages select from. */
    method ReplayErasureFences(fails: (Actor, nat) -> bool) returns (ok: bool, ghost events: seq<Event>)
      requires Valid()
      modifies this
      ensures Valid() && NoRestore(events) && World() == Run(old(World()), events)
      ensures ok ==> forall a <- old(accounts.intents) + old(accounts.erased) :: Gone(catalog, a) && !Blank(a)
      ensures !ok ==> exists a <- old(accounts.intents) + old(accounts.erased) :: Blank(a) || !Undisturbed(a, fails)
      ensures forall a: Actor :: a !in old(accounts.intents) + old(accounts.erased) ==>
                SameRows(old(World()), World(), a)
      ensures ok ==> CheckErasureReplay()
    {
      hide Inv, Run, Blank, Undisturbed;
      ghost var start := World();
      ghost var subjects := Subjects(accounts, catalog);
      SubjectsAreRecorded(start);
      Idle(start);
      events := [];
      var after := "";
      ghost var left := set a | a in subjects && Less(after, a);
      while true
        invariant Valid() && NoRestore(events) && World() == Run(start, events)
        invariant Subjects(accounts, catalog) == subjects
        invariant Touches(start, World(), subjects)
        invariant forall a <- subjects :: a == "" || Less(after, a) || (Gone(catalog, a) && !Blank(a))
        invariant left == set a | a in subjects && Less(after, a)
        decreases left
      {
        var page := SelectPage(Subjects(accounts, catalog), after, PAGE_SIZE);
        if page == [] {
          GateMeaning(World());
          AllGoneIsSettled(World());
          return true, events;
        }
        ghost var before, more := World(), [];
        ok, more := ReplayAnonymize(page, fails);
        RunConcat(start, events, more);
        events := events + more;
        TouchesMore(start, before, World(), subjects, Elements(page), subjects);
        SubjectsAreRecorded(before);
        SubjectsAreRecorded(World());
        if !ok { return; }
        PageCovers(page, subjects, after, PAGE_SIZE);
        after := page[|page| - 1];
        assert after in left && !Less(after, after);
        left := set a | a in subjects && Less(after, a);
      }
    }

    /** Finishes the purges that left a trace besides their intent. Ok means that all those are purged;
        the gate then stays shut exactly for an intent that had neither such a trace nor a purging or
        purged row before, which only ReplayErasureFences repeats. */
    method ReplayAccountErasures(fails: (Actor, nat) -> bool) returns (ok: bool, ghost events: seq<Event>)
      requires Valid()
      modifies this
      ensures Valid() && NoRestore(events) && World() == Run(old(World()), events)
      ensures ok ==> forall a <- old(accounts.receipts) :: Gone(catalog, a)
      ensures ok ==> forall a <- old(catalog.lifecycle) | old(catalog.lifecycle)[a].Purging? :: Gone(catalog, a)
      ensures ok && old(accounts.inbox) ==> forall a <- old(accounts.erased) :: Gone(catalog, a)
      ensures !ok ==> exists a :: Traced(old(accounts), old(catalog), a) && (Blank(a) || !Undisturbed(a, fails))
      ensures forall a: Actor | !Traced(old(accounts), old(catalog), a) :: SameRows(old(World()), World(), a)
      ensures ok ==> (CheckErasureReplay() <==>
                forall a <- old(accounts.intents) ::
                  Traced(old(accounts), old(catalog), a) || PurgingOrPurged(old(catalog), a))
    {
      hide Inv, Run, Blank, Undisturbed, Traced;
      ghost var start := World();
      ghost var selected := Anonymizations(accounts, catalog);
      AnonymizationsAreTraced(accounts, catalog);
      TracesAre(accounts, catalog);
      SubjectsAreRecorded(start);
      Idle(start);
      events := [];
      var after := "";
      ghost var left := set a | a in selected && Less(after, a);
      while true
        invariant Valid() && NoRestore(events) && World() == Run(start, events)
        invariant Touches(start, World(), selected)
        invariant forall a <- selected :: a in Anonymizations(accounts, catalog) || Gone(catalog, a)
        invariant forall a <- selected :: a == "" || Less(after, a) || Gone(catalog, a)
        invariant left == set a | a in selected && Less(after, a)
        decreases left
      {
        var unfinished := set a | a in Anonymizations(accounts, catalog) && !Gone(catalog, a);
        AnonymizationsStay(start, World(), selected);
        var page := SelectPage(unfinished, after, PAGE_SIZE);
        if page == [] {
          GateMeaning(World());
          GateAfterAccountReplay(start, World());
          return true, events;
        }
        ghost var before, more := World(), [];
        ok, more := ReplayAnonymize(page, fails);
        RunConcat(start, events, more);
        events := events + more;
        TouchesMore(start, before, World(), selected, Elements(page), selected);
        if !ok { return; }
        forall a | a in selected ensures a in Anonymizations(accounts, catalog) || Gone(catalog, a) {
          AnonymizationsKept(before, World(), Elements(page), a);
        }
        PageCovers(page, unfinished, after, PAGE_SIZE);
        after := page[|page| - 1];
        assert after in left && !Less(after, after);
        left := set a | a in selected && Less(after, a);
      }
    }
  }

  /** No statement of a's deletion fails. */
  predicate Undisturbed(a: Actor, fails: (Actor, nat) -> bool) {
    !fails(a, 0) && !fails(a, 1) && !fails(a, 2) && !fails(a, 3) && !fails(a, 4) && !fails(a, 5)
  }

  /** A recorded deletion that left a trace besides its intent: a receipt, an unfinished purge, or an erased
      recipient. */
  predicate Traced(s: Accounts, c: Catalog, a: Actor) {
    a in s.receipts || (a in c.lifecycle && c.lifecycle[a].Purging?) || (s.inbox && a in s.erased)
  }

  lemma AnonymizationsAreTraced(s: Accounts, c: Catalog)
    ensures forall a: Actor :: a in Anonymizations(s, c) <==> Traced(s, c, a)
  {}

  lemma TracesAre(s: Accounts, c: Catalog)
    ensures forall a <- s.receipts :: Traced(s, c, a)
    ensures forall a <- c.lifecycle | c.lifecycle[a].Purging? :: Traced(s, c, a)
    ensures s.inbox ==> forall a <- s.erased :: Traced(s, c, a)
  {}

  /** Only the touched accounts' rows change, and no other account joins the recorded ones. */
  ghost predicate Touches(w: World, w': World, touched: set<Actor>) {
    && w.accounts.inbox == w'.accounts.inbox && w.accounts.erased == w'.accounts.erased
    && w.accounts.intents <= w'.accounts.intents <= w.accounts.intents + touched
    && (forall a: Actor :: a !in touched ==> SameRows(w, w', a))
    && (forall a: Actor :: Gone(w.catalog, a) ==> Gone(w'.catalog, a))
  }

  ghost predicate SameRows(w: World, w': World, b: Actor) {
    && (b in w.accounts.receipts <==> b in w'.accounts.receipts)
    && (b in w.accounts.intents <==> b in w'.accounts.intents)
    && (b in w.accounts.fenced <==> b in w'.accounts.fenced)
    && (b in w.catalog.lifecycle <==> b in w'.catalog.lifecycle)
    && (b in w.catalog.lifecycle ==> w.catalog.lifecycle[b] == w'.catalog.lifecycle[b])
    && (b in w.catalog.cleanup <==> b in w'.catalog.cleanup)
    && (b in w.catalog.cleanup ==> w.catalog.cleanup[b] == w'.catalog.cleanup[b])
  }

  lemma RunOne(w: World, e: Event)
    ensures Run(w, [e]) == Step(w, e)
  {
    assert [e][1..] == [];
  }

  /** w is what the events, so far one attempt at a's deletion, made of w0. */
  ghost predicate Underway(w0: World, w: World, events: seq<Event>, a: Actor) {
    && w == Run(w0, events)
    && NoRestore(events)
    && Inv(w) && Touches(w0, w, {a})
    && w.snapshots == []
    && w.attempts.Keys <= {0} && (0 in w.attempts ==> w.attempts[0].actor == a)
  }

  lemma Idle(w: World)
    ensures Run(w, []) == w && forall touched :: Touches(w, w, touched)
  {}

  lemma TouchesMore(w0: World, w1: World, w2: World, t1: set<Actor>, t2: set<Actor>, t: set<Actor>)
    requires Touches(w0, w1, t1) && Touches(w1, w2, t2) && t1 + t2 <= t
    ensures Touches(w0, w2, t)
  {
    forall a: Actor | a !in t ensures SameRows(w0, w2, a) {
      assert SameRows(w0, w1, a) && SameRows(w1, w2, a);
    }
  }

  /** In every reachable world the subjects are the intents and the erased recipients. */
  lemma SubjectsAreRecorded(w: World)
    requires Inv(w)
    ensures Subjects(w.accounts, w.catalog) == w.accounts.intents + w.accounts.erased
    ensures "" !in Subjects(w.accounts, w.catalog)
    ensures Anonymizations(w.accounts, w.catalog) <= Subjects(w.accounts, w.catalog)
  {
    forall a | a in w.catalog.lifecycle && w.catalog.lifecycle[a].Purging? ensures a in w.accounts.intents {
      assert RowsAgree(w.accounts, w.catalog, a);
    }
  }

  lemma AllGoneIsSettled(w: World)
    requires Inv(w) && forall a <- Subjects(w.accounts, w.catalog) :: Gone(w.catalog, a)
    ensures Settled(w.accounts, w.catalog)
  {
    forall a | a in w.accounts.intents ensures PurgingOrPurged(w.catalog, a) {
      assert a in Subjects(w.accounts, w.catalog);
    }
    forall a | a in w.accounts.receipts ensures CleanedUp(w.catalog, a) {
      assert RowsAgree(w.accounts, w.catalog, a);
    }
  }

  /** An anonymization that was not touched is still one; a touched one is purged. */
  lemma AnonymizationsKept(w: World, w': World, touched: set<Actor>, a: Actor)
    requires Touches(w, w', touched) && forall b <- touched :: Gone(w'.catalog, b)
    requires a in Anonymizations(w.accounts, w.catalog) || Gone(w.catalog, a)
    ensures a in Anonymizations(w'.accounts, w'.catalog) || Gone(w'.catalog, a)
  {
    assert a in touched || SameRows(w, w', a);
  }

  /** Only touched accounts can have joined the anonymizations. */
  lemma AnonymizationsStay(w: World, w': World, selected: set<Actor>)
    requires Inv(w) && Touches(w, w', selected) && selected == Anonymizations(w.accounts, w.catalog)
    ensures Anonymizations(w'.accounts, w'.catalog) <= selected
  {
    forall a | a in Anonymizations(w'.accounts, w'.catalog) ensures a in selected {
      assert a !in selected ==> SameRows(w, w', a);
    }
  }

  lemma GateAfterAccountReplay(w: World, w': World)
    requires Inv(w) && Inv(w') && Touches(w, w', Anonymizations(w.accounts, w.catalog))
    requires forall a <- Anonymizations(w.accounts, w.catalog) :: Gone(w'.catalog, a)
    ensures Settled(w'.accounts, w'.catalog) <==>
              forall a <- w.accounts.intents ::
                a in Anonymizations(w.accounts, w.catalog) || PurgingOrPurged(w.catalog, a)
  {
    var selected := Anonymizations(w.accounts, w.catalog);
    forall a: Actor
      ensures a !in selected ==> SameRows(w, w', a)
      ensures a in w'.accounts.receipts ==> CleanedUp(w'.catalog, a)
    {
      assert RowsAgree(w'.accounts, w'.catalog, a);
    }
  }

  /** Such an intent is reachable: restoring a snapshot taken before a deletion began leaves its intent alone,
      or beside the marker of a recovery period. */
  lemma IntentAloneIsReachable(a: Actor, key: Key, marked: bool)
    requires !Blank(a)
    ensures var w := Run(Init(), [SetDeleted(a, marked), TakeSnapshot, Begin(0, a, key), Restore(0)]);
            && Inv(w) && Pending(w.accounts, w.catalog)
            && a in w.accounts.intents && a !in Anonymizations(w.accounts, w.catalog)
            && !PurgingOrPurged(w.catalog, a) && (a in w.catalog.lifecycle <==> marked)
  {
    assert Inv(Init());
    hide Inv, Run;
    var w1 := Step(Init(), SetDeleted(a, marked));
    var w2 := Step(w1, TakeSnapshot);
    var w3 := Step(w2, Begin(0, a, key));
    var w := Step(w3, Restore(0));
    RunKeepsInv(Init(), [SetDeleted(a, marked), TakeSnapshot, Begin(0, a, key), Restore(0)]);
    RunCons(Init(), SetDeleted(a, marked), [TakeSnapshot, Begin(0, a, key), Restore(0)]);
    RunCons(w1, TakeSnapshot, [Begin(0, a, key), Restore(0)]);
    RunCons(w2, Begin(0, a, key), [Restore(0)]);
    RunOne(w3, Restore(0));
    assert w.catalog == w1.catalog && a in w.accounts.intents;
    assert Blocks(w.accounts, w.catalog, a);
  }

  /** A deletion interrupted right after it began, by any crash, is left purging with no attempt at it. */
  lemma InterruptionIsReachable(a: Actor, key: Key)
    requires !Blank(a)
    ensures var w := Run(Init(), [Begin(0, a, key), Crash(0)]);
            && Inv(w) && w.attempts == map[] && w.catalog.lifecycle == map[a := Purging(key)]
            && a in w.accounts.intents && a !in w.accounts.receipts && !w.accounts.inbox
  {
    assert Inv(Init());
    hide Inv, Run;
    RunKeepsInv(Init(), [Begin(0, a, key), Crash(0)]);
    RunCons(Init(), Begin(0, a, key), [Crash(0)]);
    RunOne(Step(Init(), Begin(0, a, key)), Crash(0));
  }

  /** AuthKit may erase a recipient ContentKit has not yet heard of. */
  lemma ErasedRecipientIsReachable(a: Actor)
    requires a != ""
    ensures var w := Run(Init(), [ProvisionInbox, EraseRecipient(a)]);
            && Inv(w) && w.accounts.inbox && w.accounts.erased == {a}
            && w.accounts.intents == {} && w.catalog == Init().catalog
  {
    assert Inv(Init());
    hide Inv, Run;
    RunKeepsInv(Init(), [ProvisionInbox, EraseRecipient(a)]);
    RunCons(Init(), ProvisionInbox, [EraseRecipient(a)]);
    RunOne(Step(Init(), ProvisionInbox), EraseRecipient(a));
  }

  lemma StepTouches(w: World, a: Actor)
    requires Inv(w) && 0 in w.attempts && w.attempts[0].actor == a
    ensures Touches(w, AdvanceAttempt(w, 0), {a})
  {
    assert AttemptAgrees(w.accounts, w.catalog, w.attempts[0]);
  }

  lemma Started(w0: World, a: Actor, newKey: Key) returns (w: World, events: seq<Event>)
    requires Inv(w0) && w0.attempts == map[] && w0.snapshots == [] && !Blank(a)
    ensures w == Step(w0, Begin(0, a, newKey)) && Underway(w0, w, events, a)
    ensures PurgingOrPurged(w.catalog, a)
    ensures Gone(w.catalog, a) ==> CleanedUp(w.catalog, a) && a in w.accounts.receipts
    ensures 0 in w.attempts <==> !Gone(w.catalog, a)
  {
    events := [Begin(0, a, newKey)];
    w := Step(w0, events[0]);
    RunOne(w0, events[0]);
    StepKeepsInv(w0, events[0]);
    assert RowsAgree(w.accounts, w.catalog, a);
  }

  /** Attempt 0 takes its next step. */
  lemma Next(w0: World, w: World, events: seq<Event>, a: Actor) returns (w': World, events': seq<Event>)
    requires Underway(w0, w, events, a) && 0 in w.attempts
    ensures w' == AdvanceAttempt(w, 0) && Underway(w0, w', events', a)
    ensures w.attempts[0].phase.Finish? ==>
              Gone(w'.catalog, a) && CleanedUp(w'.catalog, a) && a in w'.accounts.receipts && w'.attempts == map[]
  {
    w', events' := Step(w, Advance(0)), events + [Advance(0)];
    RunConcat(w0, events, [Advance(0)]);
    RunOne(w, Advance(0));
    StepKeepsInv(w, Advance(0));
    assert AttemptAgrees(w.accounts, w.catalog, w.attempts[0]);
    assert RowsAgree(w'.accounts, w'.catalog, a);
    StepTouches(w, a);
    TouchesMore(w0, w, w', {a}, {a}, {a});
  }

  /** Attempt 0 stops on an error. */
  lemma Stop(w0: World, w: World, events: seq<Event>, a: Actor) returns (events': seq<Event>)
    requires Underway(w0, w, events, a)
    ensures Underway(w0, AtRest(w.accounts, w.catalog), events', a)
  {
    events' := events + [Crash(0)];
    RunConcat(w0, events, [Crash(0)]);
    RunOne(w, Crash(0));
    StepKeepsInv(w, Crash(0));
    Idle(w);
    TouchesMore(w0, w, AtRest(w.accounts, w.catalog), {a}, {a}, {a});
  }
}
