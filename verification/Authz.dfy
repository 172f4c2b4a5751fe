/**
 Authorizing a write: the provider is asked before the transaction, and the decision is taken later from the
 rows as they are under their locks, whatever changed in between (internal/catalogstore/authz.go).
 */
module Authz {
  import opened Text
  import opened Sorting

  /** AccountID is the actor's audience account in this tenant; "" when there is none. */
  datatype Actor = Actor(anonymous: bool, id: string, accountID: string)

  /** A content row: its owner entity and creator, "" for NULL. */
  datatype Item = Item(ownerEntity: string, createdBy: string)

  /** An entity row; scope "" for none. */
  datatype Entity = Entity(kind: string, active: bool, scope: string)

  /** The provider's answers for one actor; None is an error, which never grants. authorEntities is None
      where the entity store has no author source. */
  datatype Provider = Provider(
    contentWrite: Option<bool>, viewRestricted: Option<bool>, editOwn: Option<bool>,
    authorEntities: Option<Option<seq<string>>>, channelWrite: string -> Option<bool>)

  datatype Grants = Grants(write: bool, ownApp: bool, ownEntities: seq<string>, editors: map<string, bool>)

  datatype Outcome<+T> = Ok(value: T) | AuthError | NotFound | Forbidden

  predicate Named(actor: Actor) { !actor.anonymous && actor.id != "" }

  predicate IsChannel(e: Entity) { e.kind == "channel" && e.active && e.scope != "" }

  /** The owner entities the rows name. */
  function Owners(items: map<string, Item>, ids: seq<string>): set<string> {
    set id | id in items && id in ids && items[id].ownerEntity != "" :: items[id].ownerEntity
  }

  /** An entity asked about whose channel the provider has no answer for. */
  ghost predicate ChannelUnanswered(actor: Actor, entities: map<string, Entity>, asked: set<string>,
                                    provider: Provider) {
    Named(actor) && exists e <- asked ::
      e in entities && IsChannel(entities[e]) && provider.channelWrite(entities[e].scope) == None
  }

  /** entityEditor: the channels among the entities, and whether the actor edits each. */
  method EntityEditor(actor: Actor, entities: map<string, Entity>, asked: set<string>, provider: Provider)
    returns (r: Outcome<map<string, bool>>)
    ensures r.Ok? || r == AuthError
    ensures r == AuthError <==> ChannelUnanswered(actor, entities, asked, provider)
    ensures r.Ok? ==> forall e <- r.value ::
              e in asked && Named(actor) && e in entities && IsChannel(entities[e])
              && provider.channelWrite(entities[e].scope) == Some(r.value[e])
    ensures r.Ok? && Named(actor) ==> forall e <- asked :: e in entities && IsChannel(entities[e]) ==> e in r.value
  {
    var out: map<string, bool> := map[];
    if !Named(actor) || asked == {} { return Ok(out); }
    var todo := set e | e in asked && e in entities && IsChannel(entities[e]);
    while todo != {}
      invariant todo <= set e | e in asked && e in entities && IsChannel(entities[e])
      invariant forall e <- asked :: e in entities && IsChannel(entities[e]) ==> e in todo || e in out
      invariant forall e <- out ::
                  e in asked && e in entities && IsChannel(entities[e])
                  && provider.channelWrite(entities[e].scope) == Some(out[e])
    {
      var e :| e in todo;
      var ok := provider.channelWrite(entities[e].scope);
      if ok.None? { return AuthError; }
      out := out[e := ok.value];
      todo := todo - {e};
    }
    return Ok(out);
  }

  /** What the grants rest on: each is the provider's own answer. */
  ghost predicate Backed(g: Grants, actor: Actor, provider: Provider, entities: map<string, Entity>,
                         asked: set<string>) {
    && (g.write ==> Named(actor) && provider.contentWrite == Some(true))
    && (g.ownApp ==> actor.accountID != "" && provider.editOwn == Some(true))
    && (g.ownEntities != [] ==> actor.accountID != "" && provider.authorEntities == Some(Some(g.ownEntities)))
    && (forall e <- g.editors :: g.editors[e] ==>
          e in asked && Named(actor) && e in entities && IsChannel(entities[e])
          && provider.channelWrite(entities[e].scope) == Some(true))
  }

  /** An answer the write needs is missing: staff rights always, and unless they suffice the actor's own
      access and its channels. */
  ghost predicate Unanswered(actor: Actor, provider: Provider, entities: map<string, Entity>, asked: set<string>) {
    || (Named(actor) && (provider.contentWrite.None? || provider.viewRestricted.None?))
    || (!(Named(actor) && provider.contentWrite == Some(true)) &&
        (|| (actor.accountID != "" && (provider.editOwn.None? || provider.authorEntities.None?))
         || ChannelUnanswered(actor, entities, asked, provider)))
  }

  /** grantsFor: the rows are read without locking, before any transaction. */
  method GrantsFor(actor: Actor, ids: seq<string>, items: map<string, Item>, entities: map<string, Entity>,
                   provider: Provider)
    returns (r: Outcome<Grants>)
    ensures r.Ok? || r == AuthError
    ensures r == AuthError <==> Unanswered(actor, provider, entities, Owners(items, ids))
    ensures r.Ok? ==> Backed(r.value, actor, provider, entities, Owners(items, ids))
    ensures r.Ok? ==> (r.value.write <==> Named(actor) && provider.contentWrite == Some(true))
    ensures r.Ok? && !r.value.write && actor.accountID != "" ==>
              && (r.value.ownApp <==> provider.editOwn == Some(true))
              && (provider.authorEntities.Some? && provider.authorEntities.value.Some? ==>
                    r.value.ownEntities == provider.authorEntities.value.value)
    ensures r.Ok? && !r.value.write && Named(actor) ==> forall e <- Owners(items, ids) ::
              e in entities && IsChannel(entities[e]) ==>
                e in r.value.editors && provider.channelWrite(entities[e].scope) == Some(r.value.editors[e])
  {
    var g := Grants(false, false, [], map[]);
    if Named(actor) {
      if provider.contentWrite.None? || provider.viewRestricted.None? { return AuthError; }
      g := g.(write := provider.contentWrite.value);
    }
    if g.write { return Ok(g); }
    if actor.accountID != "" {
      if provider.editOwn.None? || provider.authorEntities.None? { return AuthError; }
      g := g.(ownApp := provider.editOwn.value);
      if provider.authorEntities.value.Some? { g := g.(ownEntities := provider.authorEntities.value.value); }
    }
    var editors := EntityEditor(actor, entities, Owners(items, ids), provider);
    if !editors.Ok? { return AuthError; }
    return Ok(g.(editors := editors.value));
  }

  /** ownAccess.allows. */
  predicate OwnAllows(g: Grants, channel: string) { if channel == "" then g.ownApp else channel in g.ownEntities }

  /** One row's verdict. A missing owner entity in the editors reads as false. */
  predicate Verdict(actor: Actor, item: Item, g: Grants) {
    || (item.createdBy == actor.accountID && actor.accountID != "" && OwnAllows(g, item.ownerEntity))
    || (item.ownerEntity in g.editors && g.editors[item.ownerEntity])
  }

  lemma VerdictsAre(actor: Actor, items: map<string, Item>, g: Grants)
    ensures forall id <- items :: Verdict(actor, items[id], g) <==>
              var item := items[id];
              || (item.ownerEntity in g.editors && g.editors[item.ownerEntity])
              || (actor.accountID != "" && item.createdBy == actor.accountID &&
                  if item.ownerEntity == "" then g.ownApp else item.ownerEntity in g.ownEntities)
  {}

  /** The rows found under their locks, in id order. */
  method LockRows(sorted: seq<string>, items: map<string, Item>) returns (out: map<string, Item>)
    ensures out == map id | id in items && id in sorted :: items[id]
  {
    out := map[];
    for i := 0 to |sorted|
      invariant out == map id | id in items && id in sorted[..i] :: items[id]
    {
      if sorted[i] in items { out := out[sorted[i] := items[sorted[i]]]; }
    }
    assert sorted[..|sorted|] == sorted;
  }

  /** Some row the actor may not write. */
  method AnyRefused(actor: Actor, rows: map<string, Item>, g: Grants) returns (refused: bool)
    ensures refused <==> exists id <- rows :: !Verdict(actor, rows[id], g)
  {
    var todo := rows.Keys;
    while todo != {}
      invariant todo <= rows.Keys
      invariant forall id <- rows.Keys - todo :: Verdict(actor, rows[id], g)
    {
      var id :| id in todo;
      if !Verdict(actor, rows[id], g) { return true; }
      todo := todo - {id};
    }
    assert forall id <- rows :: id in rows.Keys - todo;
    return false;
  }

  /** authorize: items are the rows under their locks. A missing id answers before any refusal. */
  method Authorize(actor: Actor, ids: seq<string>, items: map<string, Item>, g: Grants)
    returns (r: Outcome<map<string, Item>>)
    ensures r == NotFound <==> exists id <- ids :: id !in items
    ensures r == Forbidden <==>
              && (forall id <- ids :: id in items) && !g.write
              && exists id <- ids ::
                   var item := items[id];
                   && (item.ownerEntity in g.editors ==> !g.editors[item.ownerEntity])
                   && (actor.accountID != "" && item.createdBy == actor.accountID ==>
                         if item.ownerEntity == "" then !g.ownApp else item.ownerEntity !in g.ownEntities)
    ensures r.Ok? ==> r.value == map id | id in items && id in ids :: items[id]
    ensures r != AuthError
  {
    hide SortedSet;
    VerdictsAre(actor, items, g);
    hide Verdict;
    var sorted := SortedSet(ids);
    SortedSetIs(ids);
    var out := LockRows(sorted, items);
    for i := 0 to |sorted|
      invariant forall j | 0 <= j < i :: sorted[j] in items
    {
      if sorted[i] !in out { return NotFound; }
    }
    assert forall id <- ids :: id in sorted;
    if g.write { return Ok(out); }
    var refused := AnyRefused(actor, out, g);
    if refused { return Forbidden; }
    assert forall id <- ids :: id in out && out[id] == items[id] && Verdict(actor, out[id], g);
    return Ok(out);
  }

  /** Why a row may be written: the authority in force and the owner it is about. */
  ghost predicate Authority(actor: Actor, item: Item, provider: Provider, entities: map<string, Entity>,
                            asked: set<string>) {
    || (Named(actor) && provider.contentWrite == Some(true))
    || (item.createdBy == actor.accountID && actor.accountID != "" &&
        if item.ownerEntity == "" then provider.editOwn == Some(true)
        else provider.authorEntities.Some? && provider.authorEntities.value.Some?
             && item.ownerEntity in provider.authorEntities.value.value)
    || (item.ownerEntity in asked && Named(actor) && item.ownerEntity in entities
        && IsChannel(entities[item.ownerEntity])
        && provider.channelWrite(entities[item.ownerEntity].scope) == Some(true))
  }

  /** Authority in full. An anonymous actor, an inactive entity, one that is no channel or has no scope, and one
      the rows did not name when asked give none; creatorship gives none by itself. */
  lemma AuthorityIs(actor: Actor, item: Item, provider: Provider, entities: map<string, Entity>,
                    before: map<string, Item>, ids: seq<string>)
    ensures Authority(actor, item, provider, entities, Owners(before, ids)) <==>
              || (!actor.anonymous && actor.id != "" && provider.contentWrite == Some(true))
              || (actor.accountID != "" && item.createdBy == actor.accountID && item.ownerEntity == ""
                  && provider.editOwn == Some(true))
              || (actor.accountID != "" && item.createdBy == actor.accountID && item.ownerEntity != ""
                  && exists es :: provider.authorEntities == Some(Some(es)) && item.ownerEntity in es)
              || (!actor.anonymous && actor.id != "" && item.ownerEntity != ""
                  && (exists id <- ids :: id in before && before[id].ownerEntity == item.ownerEntity)
                  && item.ownerEntity in entities
                  && var e := entities[item.ownerEntity];
                  e.kind == "channel" && e.active && e.scope != "" && provider.channelWrite(e.scope) == Some(true))
  {
    assert (exists es :: provider.authorEntities == Some(Some(es)) && item.ownerEntity in es) <==>
           provider.authorEntities.Some? && provider.authorEntities.value.Some?
           && item.ownerEntity in provider.authorEntities.value.value;
  }

  /** A whole write: asked over the rows of one moment, decided over the locked rows of a later one. It
      succeeds exactly when the provider answered what it needed, every id exists then, and each row's owner
      under the lock has the authority the provider gave; an owner entity nobody asked about is refused. */
  method AuthorizeWrite(actor: Actor, ids: seq<string>, before: map<string, Item>, entities: map<string, Entity>,
                        provider: Provider, locked: map<string, Item>)
    returns (r: Outcome<map<string, Item>>)
    ensures r == AuthError <==> Unanswered(actor, provider, entities, Owners(before, ids))
    ensures r == NotFound <==> r != AuthError && exists id <- ids :: id !in locked
    ensures r == Forbidden <==>
              && r != AuthError && (forall id <- ids :: id in locked)
              && exists id <- ids :: !Authority(actor, locked[id], provider, entities, Owners(before, ids))
    ensures r.Ok? <==>
              && !Unanswered(actor, provider, entities, Owners(before, ids))
              && forall id <- ids ::
                   id in locked && Authority(actor, locked[id], provider, entities, Owners(before, ids))
    ensures r.Ok? ==> r.value == map id | id in locked && id in ids :: locked[id]
  {
    var asked := GrantsFor(actor, ids, before, entities, provider);
    if !asked.Ok? { return AuthError; }
    r := Authorize(actor, ids, locked, asked.value);
  }
}
