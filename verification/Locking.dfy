/**
 Concurrent authorize calls as lock takers: each locks the rows it finds one by one in the order of its
 sorted, deduplicated ids, and keeps them until its transaction ends.
 */
module Locking {
  import opened Lex
  import opened Sorting

  /** The ids a transaction holds and those it still has to lock, in order. */
  datatype Txn = Txn(held: seq<string>, rest: seq<string>)

  type World = map<nat, Txn>

  datatype Event =
    | Enter(t: nat, given: seq<string>, existing: set<string>)
    | Lock(t: nat)
    | End(t: nat)

  predicate Wants(x: Txn) { x.rest != [] }

  function Wanted(x: Txn): string
    requires Wants(x)
  {
    x.rest[0]
  }

  /** The rows of ids that exist, in id order. */
  function Found(ids: seq<string>, existing: set<string>): seq<string> {
    if ids == [] then [] else (if ids[0] in existing then [ids[0]] else []) + Found(ids[1..], existing)
  }

  ghost predicate Waits(w: World, t: nat, u: nat) {
    t in w && u in w && t != u && Wants(w[t]) && Wanted(w[t]) in w[u].held
  }

  /** Lock is taken only when no other transaction holds the row; otherwise the transaction stays waiting. */
  ghost function Step(w: World, e: Event): World {
    match e
    case Enter(t, given, existing) => if t in w then w else w[t := Txn([], Found(SortedSet(given), existing))]
    case Lock(t) =>
      if t in w && Wants(w[t]) && !(exists u <- w :: Waits(w, t, u))
      then w[t := Txn(w[t].held + [w[t].rest[0]], w[t].rest[1..])] else w
    case End(t) => w - {t}
  }

  /** Every transaction locks in ascending order, and no row is held twice. */
  ghost predicate Valid(w: World) {
    && (forall t <- w :: Ascending(w[t].held + w[t].rest))
    && (forall t <- w, u <- w :: t != u ==> forall id <- w[t].held :: id !in w[u].held)
  }

  lemma {:induction false} FoundAscends(ids: seq<string>, existing: set<string>)
    requires Ascending(ids)
    ensures Ascending(Found(ids, existing)) && forall id :: id in Found(ids, existing) <==> id in ids && id in existing
    decreases ids
  {
    if ids != [] {
      FoundAscends(ids[1..], existing);
      assert ids == [ids[0]] + ids[1..];
      var rest := Found(ids[1..], existing);
      forall i | 0 <= i < |rest| ensures Less(ids[0], rest[i]) { assert rest[i] in ids[1..]; }
    }
  }

  lemma StepKeepsValid(w: World, e: Event)
    requires Valid(w)
    ensures Valid(Step(w, e))
  {
    match e
    case Enter(t, given, existing) =>
      SortedSetIs(given);
      FoundAscends(SortedSet(given), existing);
    case Lock(t) =>
      if Step(w, e) != w {
        assert w[t].held + [w[t].rest[0]] + w[t].rest[1..] == w[t].held + w[t].rest;
        assert forall u <- w | u != t :: !Waits(w, t, u);
      }
    case End(t) =>
  }

  ghost function Run(w: World, events: seq<Event>): World
    decreases events
  {
    if events == [] then w else Run(Step(w, events[0]), events[1..])
  }

  lemma {:induction false} RunKeepsValid(w: World, events: seq<Event>)
    requires Valid(w)
    ensures Valid(Run(w, events))
    decreases events
  {
    if events != [] {
      StepKeepsValid(w, events[0]);
      RunKeepsValid(Step(w, events[0]), events[1..]);
    }
  }

  /** What a call's row locks make of it: a lock it waits for nobody for moves one id from rest to held. */
  lemma LockMoves(w: World, t: nat)
    requires t in w && Wants(w[t]) && forall u <- w :: !Waits(w, t, u)
    ensures Step(w, Lock(t))[t].held == w[t].held + [Wanted(w[t])]
    ensures [Wanted(w[t])] + Step(w, Lock(t))[t].rest == w[t].rest
    ensures forall u <- w | u != t :: u in Step(w, Lock(t)) && Step(w, Lock(t))[u] == w[u]
  {}

  // ---------------------------------------------------------------- no deadlock

  /** A member of waiting transactions whose wanted id is greatest. */
  lemma {:induction false} GreatestWanted(w: World, waiting: set<nat>) returns (top: nat)
    requires waiting != {} && waiting <= w.Keys && forall t <- waiting :: Wants(w[t])
    ensures top in waiting && forall t <- waiting :: AtMost(Wanted(w[t]), Wanted(w[top]))
    decreases waiting
  {
    var first :| first in waiting;
    var rest := waiting - {first};
    if rest == {} {
      assert waiting == {first};
      return first;
    }
    var other := GreatestWanted(w, rest);
    LessTotal(Wanted(w[other]), Wanted(w[first]));
    top := if Less(Wanted(w[first]), Wanted(w[other])) then other else first;
    forall t | t in rest ensures AtMost(Wanted(w[t]), Wanted(w[top])) {
      AtMostTransitive(Wanted(w[t]), Wanted(w[other]), Wanted(w[top]));
    }
  }

  /** Whoever holds what t wants can only want something greater. */
  lemma WaitingClimbs(w: World, t: nat, u: nat)
    requires Valid(w) && Waits(w, t, u) && Wants(w[u])
    ensures Less(Wanted(w[t]), Wanted(w[u]))
  {
    var ids := w[u].held + w[u].rest;
    var i :| 0 <= i < |w[u].held| && w[u].held[i] == Wanted(w[t]);
    assert Less(ids[i], ids[|w[u].held|]);
  }

  /** Transactions cannot all wait for each other. */
  lemma NoCycle(w: World, stuck: set<nat>)
    requires Valid(w) && stuck != {} && stuck <= w.Keys
    ensures exists t <- stuck :: forall u <- stuck :: !Waits(w, t, u)
  {
    hide Less, Valid;
    if forall t <- stuck :: Wants(w[t]) {
      var top := GreatestWanted(w, stuck);
      forall u | u in stuck ensures !Waits(w, top, u) {
        if Waits(w, top, u) {
          WaitingClimbs(w, top, u);
          LessAsymmetric(Wanted(w[top]), Wanted(w[u]));
          LessIrreflexive(Wanted(w[u]));
        }
      }
    }
  }

  /** Whatever interleaving led here, no set of transactions each waits for a member of the set: the wait-for
      graph never has a cycle, and some transaction is not waiting at all. */
  lemma NoDeadlock(events: seq<Event>)
    ensures var w := Run(map[], events);
            && Valid(w)
            && (forall stuck: set<nat> | stuck != {} && stuck <= w.Keys ::
                  exists t <- stuck :: forall u <- stuck :: !Waits(w, t, u))
            && (w != map[] ==> exists t <- w :: forall u <- w :: !Waits(w, t, u))
  {
    var w := Run(map[], events);
    RunKeepsValid(map[], events);
    forall stuck: set<nat> | stuck != {} && stuck <= w.Keys
      ensures exists t <- stuck :: forall u <- stuck :: !Waits(w, t, u)
    {
      NoCycle(w, stuck);
    }
    if w != map[] { NoCycle(w, w.Keys); }
  }

  /** So while any call is left some call can go on: it has all its locks and can end, or its next lock is
      granted. */
  lemma SomeCallGoesOn(events: seq<Event>) returns (t: nat)
    requires Run(map[], events) != map[]
    ensures var w := Run(map[], events);
            t in w && (w[t].rest == [] || Step(w, Lock(t))[t].held == w[t].held + [w[t].rest[0]])
  {
    var w := Run(map[], events);
    NoDeadlock(events);
    t :| t in w && forall u <- w :: !Waits(w, t, u);
    if Wants(w[t]) { LockMoves(w, t); }
  }

  /** A call locks exactly the rows of its ids that exist, each once, in ascending order. */
  lemma EntersAscending(w: World, t: nat, given: seq<string>, existing: set<string>)
    requires t !in w
    ensures var x := Step(w, Enter(t, given, existing))[t];
            && x.held == [] && Ascending(x.rest) && forall id :: id in x.rest <==> id in given && id in existing
  {
    SortedSetIs(given);
    FoundAscends(SortedSet(given), existing);
  }
}
