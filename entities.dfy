/** The knowledge-base entity as the connector sees it after `page.get()`:
    English-keyed labels, descriptions and aliases, and claims grouped by
    property, each claim with its qualifiers and its source groups. */
module Entities {
  import opened Wrappers
  import opened Base
  import opened Targets

  /** Values grouped by property, every property present holding at least
      one value: the shape of a claim's qualifiers and of each of its source
      groups (a property is only listed when it has a value). */
  type PropValues = m: map<PropId, seq<Target>> | forall p :: p in m ==> m[p] != [] witness map[]

  /** A claim: its target, its qualifiers, and its references, each
      reference a group of source values keyed by reference property. */
  datatype Claim = Claim(target: Target, qualifiers: PropValues, sources: seq<PropValues>)

  /** An entity's claims, by property. */
  type ClaimMap = map<PropId, seq<Claim>>

  datatype Entity = Entity(
    labels: map<string, string>,
    descriptions: map<string, string>,
    aliases: map<string, seq<string>>,
    claims: ClaimMap)

  /** What a creation request leaves in the store: an entity with only its
      English label and description. */
  function NewEntity(name: string, description: string): (e: Entity)
    ensures e.labels.Keys == e.descriptions.Keys == {"en"}
    ensures e.labels["en"] == name && e.descriptions["en"] == description
    ensures e.aliases == map[] && e.claims == map[]
  {
    Entity(map["en" := name], map["en" := description], map[], map[])
  }

  /** The page handle the connector binds. */
  datatype Page = PropertyPage(id: EntityId) | ItemPage(id: EntityId)

  /** The id check and choice of page kind of `__create_page`. */
  function PageFor(id: Option<string>): (r: Result<Page, Error>)
    ensures id.None? ==> r == Err(NoPageId)
    ensures r.Ok? <==> id.Some? && ('P' in id.value || 'Q' in id.value)
    ensures r.Ok? ==> r.value.id == id.value && (r.value.PropertyPage? <==> 'P' in id.value)
    ensures id.Some? && r.Err? ==> r.error == InvalidPageId(id.value)
  {
    match id
    case None => Err(NoPageId)
    case Some(s) =>
      if 'P' !in s && 'Q' !in s then Err(InvalidPageId(s))
      else if 'P' in s then Ok(PropertyPage(s))
      else Ok(ItemPage(s))
  }

  /** An id holding both letters becomes a property page, whatever its
      first letter. */
  lemma MixedIdBecomesProperty()
    ensures PageFor(Some("Q1P2")) == Ok(PropertyPage("Q1P2"))
    ensures PageFor(Some("42")) == Err(InvalidPageId("42"))
  {
    assert "Q1P2"[2] == 'P';
  }
}
