/** The connector itself: the knowledge base it edits, the page it is bound
    to, and `process`, which matches a row to an entity (finding or creating
    it) and then reconciles every mapped field. */
module Connector {
  import opened Wrappers
  import opened Base
  import opened Mapping
  import opened Entities
  import opened Lookup
  import opened Creation
  import opened Fields
  import opened Claims

  /** The knowledge base, by entity id, and the bound page. */
  datatype State = State(store: map<EntityId, Entity>, page: Option<Page>)

  /** `page.get()`: the bound entity, which must exist. */
  function Locate(s: State): Result<Entity, Error>
  {
    if s.page.Some? && s.page.value.id in s.store then Ok(s.store[s.page.value.id]) else Err(NoSuchEntity)
  }

  /** The state after an upsert on the bound entity: the entity the step
      leaves is written back under the page's id. */
  function OnPage(s: State, r: (Entity, Outcome<Error>)): (State, Outcome<Error>)
    requires s.page.Some?
  {
    (s.(store := s.store[s.page.value.id := r.0]), r.1)
  }

  /** `__create_page`. */
  function Bind(s: State, id: Option<string>): (State, Outcome<Error>)
  {
    match PageFor(id)
    case Err(x) => (s, Fail(x))
    case Ok(p) => (s.(page := Some(p)), Pass)
  }

  /** `__add_item` (forProperty false) and `__add_prop` (true): the fields
      are selected first; `created` is the id the service answers with, or
      None when its answer has no id or the request fails. */
  function Create(s: State, fs: seq<FieldDesc>, row: Row, forProperty: bool, created: Option<EntityId>): Result<(State, Option<EntityId>), Error>
  {
    match Selected(fs, row, forProperty)
    case Err(x) => Err(x)
    case Ok(cf) =>
      if created.Some? then Ok((s.(store := s.store[created.value := NewEntity(cf.name, cf.description)]), created))
      else Ok((s, None))
  }

  function LabelEffect(s: State, name: string): (State, Outcome<Error>)
  {
    match Locate(s)
    case Err(x) => (s, Fail(x))
    case Ok(e) => OnPage(s, LabelStep(e, name))
  }

  function DescriptionEffect(s: State, desc: string): (State, Outcome<Error>)
  {
    match Locate(s)
    case Err(x) => (s, Fail(x))
    case Ok(e) => OnPage(s, DescriptionStep(e, desc))
  }

  function AliasesEffect(s: State, aliases: seq<string>): (State, Outcome<Error>)
  {
    match Locate(s)
    case Err(x) => (s, Fail(x))
    case Ok(e) => OnPage(s, AliasStep(e, aliases))
  }

  function ClaimEffect(s: State, p: PropId, tds: seq<ClaimTarget>, refs: seq<RefDesc>, row: Row, search: SearchOracle): (State, Outcome<Error>)
  {
    match Locate(s)
    case Err(x) => (s, Fail(x))
    case Ok(e) =>
      var (cm, o) := ClaimUpsert(e.claims, p, tds, refs, row, search);
      OnPage(s, (e.(claims := cm), o))
  }

  /** One mapping descriptor in the loop of `process`: its value is read
      from the row before the entity is fetched. */
  function FieldEffect(s: State, f: FieldDesc, refs: seq<RefDesc>, row: Row, search: SearchOracle): (State, Outcome<Error>)
  {
    match f
    case LabelField(idx) =>
      (match Cell(row, idx)
       case Err(x) => (s, Fail(x))
       case Ok(name) => LabelEffect(s, name))
    case DescriptionField(idx, config) =>
      (match (if config.Some? then Ok(config.value) else Cell(row, idx))
       case Err(x) => (s, Fail(x))
       case Ok(desc) => DescriptionEffect(s, desc))
    case AliasesField(idx) =>
      (match Cell(row, idx)
       case Err(x) => (s, Fail(x))
       case Ok(cell) => AliasesEffect(s, AliasesOf(cell)))
    case ClaimField(p, tds) => ClaimEffect(s, p, tds, refs, row, search)
    case _ => (s, Pass)
  }

  /** The loop of `process` over the mapping, stopping at the first
      failure. */
  function FieldsEffect(s: State, fs: seq<FieldDesc>, refs: seq<RefDesc>, row: Row, search: SearchOracle): (State, Outcome<Error>)
    decreases |fs|
  {
    if fs == [] then (s, Pass)
    else
      var (s1, o) := FieldEffect(s, fs[0], refs, row, search);
      if o.Fail? then (s1, o) else FieldsEffect(s1, fs[1..], refs, row, search)
  }

  /** Search, or create when the search finds nothing, then bind. */
  function SearchOrCreate(s: State, key: string, conf: MappingConf, row: Row, forProperty: bool, created: Option<EntityId>, search: SearchOracle): (State, Outcome<Error>)
    requires conf.mapping.Some?
  {
    var found := search(key, conf.source.kind);
    if found.Some? then Bind(s, found)
    else
      match Create(s, conf.mapping.value, row, forProperty, created)
      case Err(x) => (s, Fail(x))
      case Ok((s1, id)) => Bind(s1, id)
  }

  /** The first part of `process`: find or create the entity and bind the
      page to it. */
  function Match(s: State, conf: MappingConf, row: Row, created: Option<EntityId>, search: SearchOracle, query: QueryOracle): (State, Outcome<Error>)
    requires conf.mapping.Some?
  {
    var src := conf.source;
    match Cell(row, src.upsertIdx)
    case Err(x) => (s, Fail(x))
    case Ok(key) =>
      if src.kind == "property" then SearchOrCreate(s, key, conf, row, true, created, search)
      else if src.matchType == "id" then Bind(s, ItemIdFromResult(query(key)))
      else SearchOrCreate(s, key, conf, row, false, created, search)
  }

  /** `process`. */
  function ProcessEffect(s: State, conf: MappingConf, row: Row, created: Option<EntityId>, search: SearchOracle, query: QueryOracle): (State, Outcome<Error>)
  {
    if conf.mapping.None? then (s, Fail(MappingRequired))
    else
      var (s1, o) := Match(s, conf, row, created, search, query);
      if o.Fail? then (s1, o) else FieldsEffect(s1, conf.mapping.value, conf.reference, row, search)
  }

  // ---------------------------------------------------------------------
  // Properties

  /** Without a mapping, `process` fails before anything is looked up. */
  lemma ProcessNeedsMapping(s: State, conf: MappingConf, row: Row, created: Option<EntityId>, search: SearchOracle, query: QueryOracle)
    requires conf.mapping.None?
    ensures ProcessEffect(s, conf, row, created, search, query) == (s, Fail(MappingRequired))
  {
  }

  /** t differs from s at most in the entity under id. */
  predicate OnlyAt(s: State, t: State, id: EntityId)
  {
    t.store.Keys == s.store.Keys &&
    forall k :: k in s.store && k != id ==> t.store[k] == s.store[k]
  }

  /** A mapping descriptor keeps the page and changes at most the bound
      entity. */
  lemma FieldEffectFrame(s: State, f: FieldDesc, refs: seq<RefDesc>, row: Row, search: SearchOracle)
    requires s.page.Some?
    ensures var (s1, o) := FieldEffect(s, f, refs, row, search);
      s1.page == s.page && OnlyAt(s, s1, s.page.value.id)
  {
  }

  lemma {:induction false} FieldsEffectFrame(s: State, fs: seq<FieldDesc>, refs: seq<RefDesc>, row: Row, search: SearchOracle)
    requires s.page.Some?
    ensures var (s1, o) := FieldsEffect(s, fs, refs, row, search);
      s1.page == s.page && OnlyAt(s, s1, s.page.value.id)
    decreases |fs|
  {
    if fs != [] {
      FieldEffectFrame(s, fs[0], refs, row, search);
      var (s0, o0) := FieldEffect(s, fs[0], refs, row, search);
      if o0.Pass? {
        FieldsEffectFrame(s0, fs[1..], refs, row, search);
      }
    }
  }

  /** Processing a row never removes an entity, adds none but the one the
      creation request answered with, and changes none but the entity the
      page is bound to afterwards and that created one. */
  lemma ProcessFrame(s: State, conf: MappingConf, row: Row, created: Option<EntityId>, search: SearchOracle, query: QueryOracle)
    ensures var (s1, o) := ProcessEffect(s, conf, row, created, search, query);
      s.store.Keys <= s1.store.Keys &&
      (forall k :: k in s1.store ==> k in s.store || created == Some(k)) &&
      (forall k :: k in s.store && created != Some(k) && !(s1.page.Some? && s1.page.value.id == k) ==> s1.store[k] == s.store[k])
  {
    if conf.mapping.Some? {
      var (s0, o0) := Match(s, conf, row, created, search, query);
      if o0.Pass? {
        FieldsEffectFrame(s0, conf.mapping.value, conf.reference, row, search);
      }
    }
  }

  /** Matching on a unique key whose query finds no entity fails with no
      page id, and nothing is created or changed. */
  lemma IdMatchMissCreatesNothing(s: State, conf: MappingConf, row: Row, created: Option<EntityId>, search: SearchOracle, query: QueryOracle)
    requires conf.mapping.Some? && conf.source.kind != "property" && conf.source.matchType == "id"
    requires Cell(row, conf.source.upsertIdx).Ok?
    requires query(Cell(row, conf.source.upsertIdx).value) == QueryResult(Some([]))
    ensures ProcessEffect(s, conf, row, created, search, query) == (s, Fail(NoPageId))
  {
  }

  /** A configuration matching items by label, with the label read from
      the first cell and the constant description "a place". */
  function PlaceConf(): MappingConf
  {
    MappingConf(SourceConf("item", 0, "label"), Some([LabelField(0), DescriptionField(-1, Some("a place"))]), [])
  }

  /** When the search finds no "Springfield", the row creates the item with
      that label and that description, binds the page to it, and the label
      and description upserts that follow leave it as created. */
  lemma SpringfieldCreated(search: SearchOracle, query: QueryOracle)
    requires search("Springfield", "item") == None
    ensures ProcessEffect(State(map[], None), PlaceConf(), ["Springfield"], Some("Q1"), search, query) ==
      (State(map["Q1" := NewEntity("Springfield", "a place")], Some(ItemPage("Q1"))), Pass)
  {
    var fs := PlaceConf().mapping.value;
    var e := NewEntity("Springfield", "a place");
    assert Selected(fs, ["Springfield"], false) == Ok(CreationFields("Springfield", "a place", None)) by {
      var row := ["Springfield"];
      assert fs[..|fs| - 1] == [LabelField(0)];
      assert fs[..|fs| - 1][..0] == [];
      assert FirstError(fs[..|fs| - 1], row, false) == None;
      assert FirstError(fs, row, false) == None;
      assert LastAssigned(fs, row, false, LabelSlot) == Some("Springfield");
      assert LastAssigned(fs, row, false, DescriptionSlot) == Some("a place");
      assert LastAssigned(fs[..|fs| - 1], row, false, DatatypeSlot) == None;
    }
    assert 'P' !in "Q1" && 'Q' in "Q1" by { assert "Q1"[0] == 'Q' && "Q1"[1] == '1'; }
    var s1 := State(map["Q1" := e], Some(ItemPage("Q1")));
    assert Match(State(map[], None), PlaceConf(), ["Springfield"], Some("Q1"), search, query) == (s1, Pass);
    assert s1.store["Q1" := e] == s1.store;
    assert FieldEffect(s1, fs[0], [], ["Springfield"], search) == (s1, Pass);
    assert e.descriptions["en" := "a place"] == e.descriptions;
    assert FieldEffect(s1, fs[1], [], ["Springfield"], search) == (s1, Pass);
    assert fs[1..][1..] == [];
  }

  /** Processing the same row again, now that the search finds the item,
      leaves the knowledge base as it was, although the description edit is
      still sent, the description differing from the label. */
  lemma SpringfieldRerun(search: SearchOracle, query: QueryOracle, created: Option<EntityId>)
    requires search("Springfield", "item") == Some("Q1")
    ensures var s := State(map["Q1" := NewEntity("Springfield", "a place")], Some(ItemPage("Q1")));
      ProcessEffect(s, PlaceConf(), ["Springfield"], created, search, query) == (s, Pass)
    ensures DescriptionDecision(NewEntity("Springfield", "a place"), "a place") == Ok(Some(EditDescription("a place")))
  {
    var fs := PlaceConf().mapping.value;
    var e := NewEntity("Springfield", "a place");
    var s1 := State(map["Q1" := e], Some(ItemPage("Q1")));
    assert 'P' !in "Q1" && 'Q' in "Q1" by { assert "Q1"[0] == 'Q' && "Q1"[1] == '1'; }
    assert Match(s1, PlaceConf(), ["Springfield"], created, search, query) == (s1, Pass);
    assert s1.store["Q1" := e] == s1.store;
    assert FieldEffect(s1, fs[0], [], ["Springfield"], search) == (s1, Pass);
    assert e.descriptions["en" := "a place"] == e.descriptions;
    assert FieldEffect(s1, fs[1], [], ["Springfield"], search) == (s1, Pass);
    assert fs[1..][1..] == [];
  }

  /** The connector object: the remote knowledge base is held as a map,
      and the two lookup services are fixed when it is built. */
  class Connector {
    var store: map<EntityId, Entity>
    var page: Option<Page>
    const search: SearchOracle
    const query: QueryOracle

    function Now(): State
      reads this
    {
      State(store, page)
    }

    constructor(kb: map<EntityId, Entity>, search: SearchOracle, query: QueryOracle)
      ensures store == kb && page == None
      ensures this.search == search && this.query == query
    {
      store := kb;
      page := None;
      this.search := search;
      this.query := query;
    }

    /** `__create_page`. */
    method CreatePage(id: Option<string>) returns (o: Outcome<Error>)
      modifies this`page
      ensures (Now(), o) == Bind(old(Now()), id)
    {
      var p := PageFor(id);
      if p.Err? {
        return Fail(p.error);
      }
      page := Some(p.value);
      o := Pass;
    }

    /** `__add_item` and `__add_prop`. */
    method AddEntity(fields: seq<FieldDesc>, row: Row, forProperty: bool, created: Option<EntityId>) returns (r: Result<Option<EntityId>, Error>)
      modifies this`store
      ensures match Create(old(Now()), fields, row, forProperty, created)
        case Err(x) => r == Err(x) && Now() == old(Now())
        case Ok((s1, id)) => r == Ok(id) && Now() == s1
    {
      var selected := SelectCreationFields(fields, row, forProperty);
      if selected.Err? {
        return Err(selected.error);
      }
      if created.Some? {
        store := store[created.value := NewEntity(selected.value.name, selected.value.description)];
      }
      r := Ok(created);
    }

    /** `__upsert_label`. */
    method UpsertLabel(name: string) returns (o: Outcome<Error>)
      modifies this`store
      ensures (Now(), o) == LabelEffect(old(Now()), name)
    {
      if page.None? || page.value.id !in store {
        return Fail(NoSuchEntity);
      }
      var e := store[page.value.id];
      var edit := LabelDecision(e, name);
      if edit.Err? {
        assert store[page.value.id := e] == store;
        return Fail(edit.error);
      }
      store := store[page.value.id := Commit(e, edit.value)];
      o := Pass;
    }

    /** `__upsert_description`. */
    method UpsertDescription(desc: string) returns (o: Outcome<Error>)
      modifies this`store
      ensures (Now(), o) == DescriptionEffect(old(Now()), desc)
    {
      if page.None? || page.value.id !in store {
        return Fail(NoSuchEntity);
      }
      var e := store[page.value.id];
      var edit := DescriptionDecision(e, desc);
      if edit.Err? {
        assert store[page.value.id := e] == store;
        return Fail(edit.error);
      }
      store := store[page.value.id := Commit(e, edit.value)];
      o := Pass;
    }

    /** `__upsert_aliases`. */
    method UpsertAliases(aliases: seq<string>) returns (o: Outcome<Error>)
      modifies this`store
      ensures (Now(), o) == AliasesEffect(old(Now()), aliases)
    {
      if page.None? || page.value.id !in store {
        return Fail(NoSuchEntity);
      }
      var e := store[page.value.id];
      store := store[page.value.id := Commit(e, AliasDecision(e, aliases))];
      o := Pass;
    }

    /** `__upsert_claim`: the claims of the bound entity are read, changed
      in place, and the entity is written back. */
    method UpsertClaim(p: PropId, tds: seq<ClaimTarget>, refs: seq<RefDesc>, row: Row) returns (o: Outcome<Error>)
      modifies this`store
      ensures (Now(), o) == ClaimEffect(old(Now()), p, tds, refs, row, search)
    {
      if page.None? || page.value.id !in store {
        return Fail(NoSuchEntity);
      }
      var e := store[page.value.id];
      var claims;
      claims, o := UpsertClaims(e.claims, p, tds, refs, row, search);
      store := store[page.value.id := e.(claims := claims)];
    }

    /** The first part of `process`: find or create the entity of the row
        and bind the page to it. */
    method BindRow(conf: MappingConf, row: Row, created: Option<EntityId>) returns (o: Outcome<Error>)
      requires conf.mapping.Some?
      modifies this
      ensures (Now(), o) == Match(old(Now()), conf, row, created, search, query)
    {
      var fields := conf.mapping.value;
      var src := conf.source;
      var key := Cell(row, src.upsertIdx);
      if key.Err? {
        return Fail(key.error);
      }
      var id: Option<EntityId>;
      if src.kind == "property" {
        id := search(key.value, src.kind);
        if id.None? {
          var r := AddEntity(fields, row, true, created);
          if r.Err? {
            return Fail(r.error);
          }
          id := r.value;
        }
      } else if src.matchType == "id" {
        id := ItemIdFromResult(query(key.value));
      } else {
        id := search(key.value, src.kind);
        if id.None? {
          var r := AddEntity(fields, row, false, created);
          if r.Err? {
            return Fail(r.error);
          }
          id := r.value;
        }
      }
      o := CreatePage(id);
    }

    /** One descriptor of the loop of `process`. */
    method ProcessField(f: FieldDesc, refs: seq<RefDesc>, row: Row) returns (o: Outcome<Error>)
      modifies this
      ensures (Now(), o) == FieldEffect(old(Now()), f, refs, row, search)
    {
      match f {
      case LabelField(idx) =>
        var name := Cell(row, idx);
        if name.Err? {
          return Fail(name.error);
        }
        o := UpsertLabel(name.value);
      case DescriptionField(idx, config) =>
        var desc := if config.Some? then Ok(config.value) else Cell(row, idx);
        if desc.Err? {
          return Fail(desc.error);
        }
        o := UpsertDescription(desc.value);
      case AliasesField(idx) =>
        var cell := Cell(row, idx);
        if cell.Err? {
          return Fail(cell.error);
        }
        o := UpsertAliases(AliasesOf(cell.value));
      case ClaimField(p, tds) =>
        o := UpsertClaim(p, tds, refs, row);
      case _ =>
        o := Pass;
      }
    }

    /** `process`. */
    method Process(conf: MappingConf, row: Row, created: Option<EntityId>) returns (o: Outcome<Error>)
      modifies this
      ensures (Now(), o) == ProcessEffect(old(Now()), conf, row, created, search, query)
    {
      if conf.mapping.None? {
        return Fail(MappingRequired);
      }
      var fields := conf.mapping.value;
      o := BindRow(conf, row, created);
      if o.Fail? {
        return;
      }
      ghost var bound := Now();
      for i := 0 to |fields|
        invariant FieldsEffect(bound, fields, conf.reference, row, search) == FieldsEffect(Now(), fields[i..], conf.reference, row, search)
      {
        assert fields[i..][1..] == fields[i + 1..];
        o := ProcessField(fields[i], conf.reference, row);
        if o.Fail? {
          return;
        }
      }
      assert fields[|fields|..] == [];
      o := Pass;
    }
  }
}
