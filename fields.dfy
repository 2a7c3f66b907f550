/** The label, description and alias upserts: each compares the row's value
    with the entity's English entry and sends an edit only on a mismatch. */
module Fields {
  import opened Wrappers
  import opened Base
  import opened Entities
  import Text

  /** The edit requests: `editLabels`, `editDescriptions` and `editAliases`
      with an `en` entry. */
  datatype FieldEdit = EditLabel(text: string) | EditDescription(text: string) | EditAliases(aliases: seq<string>)

  /** The entity after an edit request: the English entry is replaced (for
      aliases, the whole English list), nothing else changes. The service
      keeps no empty alias list, so sending an empty list removes the
      English entry. */
  function Apply(e: Entity, ed: FieldEdit): Entity
  {
    match ed
    case EditLabel(t) => e.(labels := e.labels["en" := t])
    case EditDescription(t) => e.(descriptions := e.descriptions["en" := t])
    case EditAliases(a) =>
      if a == [] then e.(aliases := e.aliases - {"en"}) else e.(aliases := e.aliases["en" := a])
  }

  function Commit(e: Entity, ed: Option<FieldEdit>): Entity
  {
    if ed.Some? then Apply(e, ed.value) else e
  }

  /** The edit `__upsert_label` sends: one iff the label differs from the
      English label; reading a missing English label raises. */
  function LabelDecision(e: Entity, name: string): (r: Result<Option<FieldEdit>, Error>)
    ensures r.Err? <==> "en" !in e.labels
    ensures r.Err? ==> r.error == MissingEnglishLabel
    ensures r.Ok? ==> (r.value == None <==> name == e.labels["en"])
    ensures r.Ok? && r.value.Some? ==> r.value.value == EditLabel(name)
  {
    if "en" !in e.labels then Err(MissingEnglishLabel)
    else if name != e.labels["en"] then Ok(Some(EditLabel(name)))
    else Ok(None)
  }

  /** The edit `__upsert_description` sends. As written it compares the
      description with the English LABEL, not the English description. */
  function DescriptionDecision(e: Entity, desc: string): (r: Result<Option<FieldEdit>, Error>)
    ensures r.Err? <==> "en" !in e.labels
    ensures r.Err? ==> r.error == MissingEnglishLabel
    ensures r.Ok? ==> (r.value == None <==> desc == e.labels["en"])
    ensures r.Ok? && r.value.Some? ==> r.value.value == EditDescription(desc)
  {
    if "en" !in e.labels then Err(MissingEnglishLabel)
    else if desc != e.labels["en"] then Ok(Some(EditDescription(desc)))
    else Ok(None)
  }

  /** The test of `__upsert_aliases`: an English list of the same length
      holding the same set of aliases. */
  predicate SameAliases(e: Entity, aliases: seq<string>)
  {
    "en" in e.aliases && |e.aliases["en"]| == |aliases| &&
    (set a | a in e.aliases["en"]) == (set a | a in aliases)
  }

  /** The edit `__upsert_aliases` sends: the whole list, unless it is the
      same as the English list. */
  function AliasDecision(e: Entity, aliases: seq<string>): (r: Option<FieldEdit>)
    ensures r == None <==> SameAliases(e, aliases)
    ensures r.Some? ==> r.value == EditAliases(aliases)
  {
    if SameAliases(e, aliases) then None else Some(EditAliases(aliases))
  }

  /** The aliases a cell gives: the cell split on ", ", or none for an
      empty cell. */
  function AliasesOf(cell: string): seq<string>
  {
    if cell != "" then Text.Split(cell, ", ") else []
  }

  /** The one-call effect of each upsert on the entity. */
  function LabelStep(e: Entity, name: string): (Entity, Outcome<Error>)
  {
    match LabelDecision(e, name)
    case Err(x) => (e, Fail(x))
    case Ok(ed) => (Commit(e, ed), Pass)
  }

  function DescriptionStep(e: Entity, desc: string): (Entity, Outcome<Error>)
  {
    match DescriptionDecision(e, desc)
    case Err(x) => (e, Fail(x))
    case Ok(ed) => (Commit(e, ed), Pass)
  }

  function AliasStep(e: Entity, aliases: seq<string>): (Entity, Outcome<Error>)
  {
    (Commit(e, AliasDecision(e, aliases)), Pass)
  }

  /** A label upsert leaves the English label equal to the row's value,
      changes nothing else, and a second run sends no edit. */
  lemma LabelUpsertSettles(e: Entity, name: string)
    requires "en" in e.labels
    ensures var (e1, o) := LabelStep(e, name);
      o == Pass && e1 == e.(labels := e.labels["en" := name]) && LabelDecision(e1, name) == Ok(None)
  {
    if name == e.labels["en"] {
      assert e.labels["en" := name] == e.labels;
    }
  }

  /** Because the description is compared with the label, a description that
      differs from the label is sent again on every run, even when it is
      already the English description. */
  lemma DescriptionRewrittenEveryRun(e: Entity, desc: string)
    requires "en" in e.labels && desc != e.labels["en"]
    ensures var (e1, o) := DescriptionStep(e, desc);
      o == Pass && e1.descriptions["en"] == desc && e1.labels == e.labels &&
      DescriptionDecision(e1, desc) == Ok(Some(EditDescription(desc)))
  {
  }

  /** A description equal to the English label is never written, whatever
      the English description is. */
  lemma DescriptionEqualToLabelNeverWritten(e: Entity, desc: string)
    requires "en" in e.labels && desc == e.labels["en"]
    ensures DescriptionStep(e, desc) == (e, Pass)
  {
  }

  /** An alias upsert leaves the entity alone when the lists count as the
      same, and otherwise replaces the whole English list (an empty list
      removes it) and nothing else; a second run with a non-empty list sends
      no edit. */
  lemma AliasUpsertSettles(e: Entity, aliases: seq<string>)
    ensures var (e1, o) := AliasStep(e, aliases);
      o == Pass &&
      (if SameAliases(e, aliases) then e1 == e
       else if aliases == [] then e1 == e.(aliases := e.aliases - {"en"})
       else e1 == e.(aliases := e.aliases["en" := aliases])) &&
      (aliases != [] ==> AliasDecision(e1, aliases) == None)
  {
  }

  /** An empty cell sends an empty list again on every run: after the first
      edit there is no English list to compare with. Only an entity that
      already holds an empty English list is left alone. */
  lemma EmptyAliasesResentEveryRun(e: Entity)
    ensures var (e1, o) := AliasStep(e, []);
      o == Pass &&
      (AliasDecision(e, []) == None <==> "en" in e.aliases && e.aliases["en"] == []) &&
      (AliasDecision(e, []) != None ==> "en" !in e1.aliases && AliasDecision(e1, []) == Some(EditAliases([])))
  {
  }

  /** Order does not matter and the list is replaced, not merged. */
  lemma AliasExamples(e: Entity)
    requires "en" in e.aliases && e.aliases["en"] == ["a", "b"]
    ensures AliasDecision(e, ["b", "a"]) == None
    ensures AliasStep(e, ["a", "c"]).0.aliases["en"] == ["a", "c"]
  {
    assert (set x | x in ["a", "b"]) == {"a", "b"};
    assert (set x | x in ["b", "a"]) == {"a", "b"};
    assert (set x | x in ["a", "c"]) == {"a", "c"};
    assert "c" in (set x | x in ["a", "c"]);
  }

  /** The test compares lengths and sets only, so a list with a repeated
      alias passes for one with another repeated alias. */
  lemma AliasesIgnoreMultiplicity(e: Entity)
    requires "en" in e.aliases && e.aliases["en"] == ["a", "a", "b"]
    ensures AliasDecision(e, ["a", "b", "b"]) == None
  {
    assert (set x | x in ["a", "a", "b"]) == {"a", "b"};
    assert (set x | x in ["a", "b", "b"]) == {"a", "b"};
  }

  /** A non-empty cell is split into pieces, none holding ", ", that join
      back to the cell; an empty cell gives no alias. */
  lemma AliasesOfCell(cell: string)
    ensures cell == "" ==> AliasesOf(cell) == []
    ensures cell != "" ==> Text.Join(AliasesOf(cell), ", ") == cell
    ensures forall k, i :: 0 <= k < |AliasesOf(cell)| && 0 <= i ==> !Text.OccursAt(AliasesOf(cell)[k], ", ", i)
  {
    if cell != "" {
      Text.JoinSplit(cell, ", ");
      Text.SplitPiecesFree(cell, ", ");
    }
  }
}
