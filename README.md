# Wikibase data connector — a verified model

The Python class `WBDC` reconciles one data row with one entity (an item or a
property) in a Wikibase knowledge base. A mapping configuration drives it. It
first finds the entity, by a free-text search on a row cell or by a graph
query on a unique key, and creates the entity when the search finds nothing.
It then binds the entity's page and walks the mapping in order:

- it rewrites the English label, description and aliases when they differ
  from the row;
- it reconciles the claims of each mapped property: claims with an equal
  target are matched, and a new claim is added for each target no claim
  has;
- on every claim it touches, it reconciles the references (source groups)
  and the qualifiers.

This project models that engine in Dafny:

- The remote knowledge base is a map from entity id to an `Entity` value:
  labels, descriptions, aliases, and claims by property. Each `Claim` has a
  target, qualifiers by property, and a list of source groups.
- Each pywikibot mutation is an update of that value: `addClaim`,
  `addSource`, `removeSource`, `addQualifier`, `removeQualifier`,
  `editLabels`, `editDescriptions` and `editAliases`.
- The two lookups are parameters. The entity search (`wbsearchentities`) is
  a function from (term, type) to an optional id. The graph query is a
  function from the unique key to the parsed response.
- The id that a creation request answers with is a parameter of `process`.

The modules follow the structure of the source:

| file | module | models |
|---|---|---|
| `wrappers.dfy` | `Wrappers` | `Option`, `Result`, `Outcome` |
| `base.dfy` | `Base` | rows, ids, the error conditions, Python's `row[idx]` |
| `text.dfy` | `Text` | `str.split(', ')`, `''.join(v.split(c))`, `split('/')[-1]` |
| `mapping.dfy` | `Mapping` | the mapping configuration's descriptors |
| `targets.dfy` | `Targets` | `__determine_target` |
| `entities.dfy` | `Entities` | entities, claims, `__create_page`'s id check |
| `lookup.dfy` | `Lookup` | the result extraction of `__get_item_id` |
| `creation.dfy` | `Creation` | the field selection of `__add_item` / `__add_prop` |
| `fields.dfy` | `Fields` | `__upsert_label`, `__upsert_description`, `__upsert_aliases` |
| `references.dfy` | `References` | `__upsert_references`, `__update_link`, `__add_source` |
| `qualifiers.dfy` | `Qualifiers` | `__upsert_qualifier` |
| `claims.dfy` | `Claims` | `__set_claim_options`, `__upsert_claim` |
| `connector.dfy` | `Connector` | the class with its page and store, `process` |

Each loop of the source is a method with a `for` loop. The method is proved
equal to a recursive specification function, and the properties are lemmas
about those functions. The class `Connector.Connector` holds the
knowledge base (`store`) and the bound `page`. Each of its methods is stated
as the change it makes to that state.

Some behaviours of the code deserve a note; the model keeps each as the
code has it:

- The reference lookup that `__upsert_references` builds (lines 422-426) has
  one entry per property, taken from the LAST group that lists the property,
  since the dictionary comprehension overwrites earlier groups.
- `__upsert_description` compares the description with the English LABEL
  (line 400), not with the stored description. So a description that
  differs from the label is sent again on every run.
- An empty alias cell gives an empty list. The service keeps no empty
  alias list, so that list is sent again on every run.
- A second run does not always change nothing:
  - a description is rewritten whenever it differs from the label;
  - an empty alias list is sent every time (`EmptyAliasesResentEveryRun`);
  - a qualifier property holding two or more values can change again
    (`QualifierDuplicateWhenSeveral`);
  - two targets of one claim field that resolve to the same value but carry
    different qualifiers rewrite each other's qualifiers on every run, since
    each target reconciles every claim with that value
    (`SameValueTargetsDoNotSettle`).

  Sufficient conditions for settling are stated as lemmas:
  `RefsUpsertIdempotent` for references with distinct, readable properties,
  `QualifierReplacesSingle` for one qualifier, and `ClaimUpsertSettles` for
  a whole claim field. These conditions are sufficient, not necessary.

## Model

| member | source | states |
|---|---|---|
| Base.Cell | src/wikibasedataconnector/wikibasedataconnector.py:186 | `row[idx]` succeeds exactly for `-len(row) <= idx < len(row)` and then gives `row[idx]` for a non-negative index and `row[len(row) + idx]` for a negative one; otherwise it raises an index error |
| Text.JoinSplit | src/wikibasedataconnector/wikibasedataconnector.py:273 | joining the pieces of a split with the separator gives back the original text |
| Text.SplitPiecesFree | src/wikibasedataconnector/wikibasedataconnector.py:273 | no piece of a split contains the separator |
| Text.SplitHeadIsPrefix | src/wikibasedataconnector/wikibasedataconnector.py:273 | the first piece of a split is a prefix of the text |
| Text.WithoutCounts | src/wikibasedataconnector/wikibasedataconnector.py:209 | `''.join(v.split(c))` removes every `c` and keeps every other character with its count |
| Text.WithoutSubseq | src/wikibasedataconnector/wikibasedataconnector.py:209 | `''.join(v.split(c))` keeps the characters other than `c` in their order |
| Text.LastSegment | src/wikibasedataconnector/wikibasedataconnector.py:239 | `split('/')[-1]` is the longest suffix without '/', preceded by '/' unless it is the whole text |
| Targets.TimeSeparators | src/wikibasedataconnector/wikibasedataconnector.py:208-211 | a time cell holding '-' loses every '-' and keeps every '/'; otherwise it loses every '/'; every other character keeps its count, and the kept characters keep their order |
| Targets.TimeNormalisationIdempotent | src/wikibasedataconnector/wikibasedataconnector.py:208-211 | stripping twice equals stripping once exactly when the cell does not hold both separators |
| Targets.Resolve | src/wikibasedataconnector/wikibasedataconnector.py:169-215 | resolution fails exactly when a cell the descriptor needs is outside the row, and then with an index error |
| Targets.CoordinateBeforeConstant | src/wikibasedataconnector/wikibasedataconnector.py:169-185 | the globe-coordinate case comes before the constant case: a coordinate descriptor reads its two cells, at precision 0.001, whatever its own index, so an index of -1 does not make it a constant |
| Targets.ConstantIgnoresRow | src/wikibasedataconnector/wikibasedataconnector.py:180-185 | a constant wikibase-item descriptor is looked up by its value; any other constant is returned verbatim, whatever the row and the type |
| Targets.UnknownKindFallsBackToItem | src/wikibasedataconnector/wikibasedataconnector.py:214-215 | an unknown type bound to a cell resolves as a wikibase-item: an item lookup of the cell text |
| Targets.TimeResolution | src/wikibasedataconnector/wikibasedataconnector.py:206-213 | a time cell resolves to its stripped text with day precision (11) |
| Targets.GeoShapeIgnoresCellText | src/wikibasedataconnector/wikibasedataconnector.py:186-197 | a geo-shape needs its cell to exist, but its value is the configured map page |
| Targets.TextualResolution | src/wikibasedataconnector/wikibasedataconnector.py:186-205 | a row-bound string or external id is the cell text, and a quantity is the cell text with the configured unit and margin |
| Targets.MonolingualDefaultsToEnglish | src/wikibasedataconnector/wikibasedataconnector.py:189-193 | a row-bound monolingual text is the cell text in the configured language, "en" when none is configured |
| Entities.NewEntity | src/wikibasedataconnector/wikibasedataconnector.py:42-54 | a created entity holds exactly the English label and description it was created with, and no aliases and no claims |
| Entities.PageFor | src/wikibasedataconnector/wikibasedataconnector.py:146-157 | a missing id fails with "no page id"; an id with neither 'P' nor 'Q' fails; otherwise the page has that id and is a property page exactly when 'P' occurs in it |
| Entities.MixedIdBecomesProperty | src/wikibasedataconnector/wikibasedataconnector.py:150-157 | "Q1P2" gives a property page; "42" is rejected |
| Lookup.ItemIdFromResult | src/wikibasedataconnector/wikibasedataconnector.py:234-239 | no id exactly when `results` is missing, the bindings are empty or the first binding has no `item`; otherwise the id is the text after the last '/' of the first binding's `item` |
| Lookup.ItemIdExamples | src/wikibasedataconnector/wikibasedataconnector.py:234-239 | ".../entity/Q42" gives "Q42"; an empty binding list or missing `results` gives no id |
| Creation.SelectCreationFields | src/wikibasedataconnector/wikibasedataconnector.py:30-41 | the creation loop over the mapping yields exactly the selection specified by `Selected` |
| Creation.CreationOutcome | src/wikibasedataconnector/wikibasedataconnector.py:81-94 | selection succeeds exactly when no entry raises and a label, a description and, for a property, a datatype entry are present; a datatype is returned exactly for a property |
| Creation.LaterEntryOverwrites | src/wikibasedataconnector/wikibasedataconnector.py:32-37 | a later entry of the same kind replaces the value of an earlier one |
| Creation.AssignedIffPresent | src/wikibasedataconnector/wikibasedataconnector.py:32-39 | when no entry raises, a field gets a value exactly when some entry of its kind is present |
| Creation.FirstErrorPrefix | src/wikibasedataconnector/wikibasedataconnector.py:32-37 | once an entry raises, later entries do not change the error |
| Fields.LabelDecision | src/wikibasedataconnector/wikibasedataconnector.py:403-411 | a label edit is sent exactly when the label differs from the English label; a missing English label raises |
| Fields.DescriptionDecision | src/wikibasedataconnector/wikibasedataconnector.py:393-401 | a description edit is sent exactly when the description differs from the English label; without an English label it fails with the missing-label error |
| Fields.AliasDecision | src/wikibasedataconnector/wikibasedataconnector.py:384-391 | the alias list is sent, whole, exactly when it is not the case that an English list exists with the same length and the same set |
| Fields.LabelUpsertSettles | src/wikibasedataconnector/wikibasedataconnector.py:403-411 | after a label upsert the English label is the row's value, nothing else changed, and a second upsert sends no edit |
| Fields.DescriptionRewrittenEveryRun | src/wikibasedataconnector/wikibasedataconnector.py:400-401 | a description unequal to the label is written, and written again on the next run |
| Fields.DescriptionEqualToLabelNeverWritten | src/wikibasedataconnector/wikibasedataconnector.py:400-401 | a description equal to the label is never written, whatever the stored description |
| Fields.AliasUpsertSettles | src/wikibasedataconnector/wikibasedataconnector.py:384-391 | an alias upsert leaves the entity alone when the lists agree; otherwise it replaces the English list with the new one, or removes it when the new list is empty; a second upsert with a non-empty list sends nothing |
| Fields.EmptyAliasesResentEveryRun | src/wikibasedataconnector/wikibasedataconnector.py:378-391 | an empty list sends nothing exactly when the entity already holds an empty English list; otherwise the English list is removed and the next run sends the empty list again |
| Fields.AliasExamples | src/wikibasedataconnector/wikibasedataconnector.py:384-391 | ["a","b"] against ["b","a"] sends nothing; against ["a","c"] the list becomes ["a","c"], not a merge |
| Fields.AliasesIgnoreMultiplicity | src/wikibasedataconnector/wikibasedataconnector.py:386-388 | ["a","a","b"] and ["a","b","b"] count as the same aliases |
| Fields.AliasesOfCell | src/wikibasedataconnector/wikibasedataconnector.py:273 | an empty cell gives no aliases; otherwise joining the aliases with ", " gives the cell back, and no alias contains ", " |
| References.UpdateLink | src/wikibasedataconnector/wikibasedataconnector.py:333-344 | every group present on entry that holds the property loses its first source for it, and one new group with the new value is added per such group |
| References.UpsertReferences | src/wikibasedataconnector/wikibasedataconnector.py:413-433 | the reference loop gives exactly the claim and outcome specified by `RefsUpsert` over the groups present on entry |
| References.RefsUpsertKeepsTarget | src/wikibasedataconnector/wikibasedataconnector.py:413-433 | reference reconciliation changes neither the claim's target nor its qualifiers |
| References.LookupMissing | src/wikibasedataconnector/wikibasedataconnector.py:422-426 | the entry-time lookup has no entry for a property exactly when no group lists it |
| References.LookupLastGroupWins | src/wikibasedataconnector/wikibasedataconnector.py:422-426 | the lookup gives the first source of the last group listing the property |
| References.OneReferenceRules | src/wikibasedataconnector/wikibasedataconnector.py:427-433 | a descriptor for an absent property adds one group with one source; one with an equal value changes nothing; one with a different value relinks |
| References.ChangedLinkExample | src/wikibasedataconnector/wikibasedataconnector.py:340-344 | a P1 source "old" demanded as "new" leaves exactly one P1 source, with value "new" |
| References.FreshClaimSources | src/wikibasedataconnector/wikibasedataconnector.py:136-144 | on a claim with no sources each readable descriptor adds one group, in order, holding its constant or its cell |
| References.StepSettles | src/wikibasedataconnector/wikibasedataconnector.py:429-433 | after one descriptor the live groups give its property the new value and every other property what it had |
| References.RunSettles | src/wikibasedataconnector/wikibasedataconnector.py:427-433 | after a run with distinct properties every property has its demanded value and other properties are unchanged |
| References.RefsUpsertIdempotent | src/wikibasedataconnector/wikibasedataconnector.py:413-433 | with distinct readable reference properties, a second reconciliation changes nothing |
| Qualifiers.QualifierStep | src/wikibasedataconnector/wikibasedataconnector.py:448-453 | afterwards the target is among the property's qualifiers; a differing first qualifier is removed and the target appended; a property with none gets exactly the target; an equal first qualifier changes nothing; the count is kept (one if there were none); other properties, the target and the sources are unchanged |
| Qualifiers.QualifierUpsert | src/wikibasedataconnector/wikibasedataconnector.py:443-453 | the upsert fails exactly when the qualifier's value cannot be read, and then the claim is unchanged |
| Qualifiers.UpsertQualifiers | src/wikibasedataconnector/wikibasedataconnector.py:330-331 | the qualifier loop gives exactly the claim and outcome specified by `QualifiersUpsert` |
| Qualifiers.QualifierStepFixed | src/wikibasedataconnector/wikibasedataconnector.py:448-453 | a qualifier step changes nothing exactly when the property's first qualifier already is the target |
| Qualifiers.QualifierReplacesSingle | src/wikibasedataconnector/wikibasedataconnector.py:448-451 | a property with at most one qualifier ends with exactly the new one, and a second step changes nothing |
| Qualifiers.QualifierDuplicateWhenSeveral | src/wikibasedataconnector/wikibasedataconnector.py:448-451 | qualifiers [x, t] demanded as t become [t, t] |
| Qualifiers.QualifiersUpsertKeepsTarget | src/wikibasedataconnector/wikibasedataconnector.py:330-331 | the qualifier loop changes neither the target nor the sources |
| Qualifiers.QualifiersKeepOthers | src/wikibasedataconnector/wikibasedataconnector.py:330-331 | a property no descriptor names keeps its qualifiers |
| Qualifiers.QualifiersAllPresent | src/wikibasedataconnector/wikibasedataconnector.py:330-331 | readable qualifiers with distinct properties all succeed and are all present afterwards |
| Qualifiers.QualifiersSettle | src/wikibasedataconnector/wikibasedataconnector.py:330-331 | readable qualifiers with distinct properties, on a claim holding at most one value for each, succeed and leave exactly the resolved value under each property |
| Qualifiers.QualifiersSettledNoOp | src/wikibasedataconnector/wikibasedataconnector.py:443-453 | a qualifier loop whose resolved values are all first under their properties changes nothing |
| Claims.NewClaim | src/wikibasedataconnector/wikibasedataconnector.py:326-331 | a new claim exists only when its target is readable, and its target is the resolved one |
| Claims.Reconcile | src/wikibasedataconnector/wikibasedataconnector.py:369-371 | reconciling a matched claim never changes its target |
| Claims.SetClaimOptions | src/wikibasedataconnector/wikibasedataconnector.py:317-331 | builds exactly the claim specified by `NewClaim` |
| Claims.ReconcileClaim | src/wikibasedataconnector/wikibasedataconnector.py:369-371 | references then qualifiers, exactly as specified by `Reconcile` |
| Claims.MatchTarget | src/wikibasedataconnector/wikibasedataconnector.py:364-372 | the `match_found` loop gives exactly the claims, flag and outcome specified by `MatchFrom` |
| Claims.UpsertClaims | src/wikibasedataconnector/wikibasedataconnector.py:346-376 | the claim upsert gives exactly the claims and outcome specified by `ClaimUpsert` |
| Claims.MatchFromShape | src/wikibasedataconnector/wikibasedataconnector.py:366-372 | the inner loop keeps every claim in place with its target, and reports a match exactly when some claim's target equals the resolved one |
| Claims.MatchFromKeepsOthers | src/wikibasedataconnector/wikibasedataconnector.py:366-372 | the inner loop leaves every claim whose target differs from the resolved one exactly as it was |
| Claims.MatchFromReconciles | src/wikibasedataconnector/wikibasedataconnector.py:366-372 | on success the inner loop reconciles every claim whose target equals the resolved one |
| Claims.MatchFromFailure | src/wikibasedataconnector/wikibasedataconnector.py:366-372 | a failing inner loop failed at one matching claim: earlier matching claims are reconciled, that claim keeps the edits made before the failure, later claims are unchanged |
| Claims.TargetStepShape | src/wikibasedataconnector/wikibasedataconnector.py:363-376 | an unreadable target changes nothing; claims with another target are unchanged; on success claims with this target are reconciled; a target some claim has adds no claim; a target none has appends exactly its new claim on success; on success the target is present |
| Claims.MatchEachShape | src/wikibasedataconnector/wikibasedataconnector.py:363-376 | when the property exists, claims are kept with their targets, a claim no target names is unchanged, and on success every target is present |
| Claims.MatchEachAddsNone | src/wikibasedataconnector/wikibasedataconnector.py:363-376 | when every readable target is present already, no claim is added |
| Claims.AddEachShape | src/wikibasedataconnector/wikibasedataconnector.py:356-360 | for a new property one claim per target is appended, in order, with the resolved target |
| Claims.AddEachFront | src/wikibasedataconnector/wikibasedataconnector.py:356-360 | the loop for a new property appends the same claims and gives the same outcome whatever claims precede them |
| Claims.AddEachBuilds | src/wikibasedataconnector/wikibasedataconnector.py:356-360 | the loop for a new property builds at most one claim per target, the k-th being the new claim of target k, and succeeds exactly when it built one for every target |
| Claims.AddEachSucceeds | src/wikibasedataconnector/wikibasedataconnector.py:356-360 | for a new property the loop succeeds when the new claim of every target can be built |
| Claims.AddEachContents | src/wikibasedataconnector/wikibasedataconnector.py:356-360 | on success the claims appended for a new property are exactly the new claims of the targets, in order |
| Claims.AddEachStopsAtFailure | src/wikibasedataconnector/wikibasedataconnector.py:356-360 | a failing loop for a new property stopped at the first target whose new claim cannot be built, right after the claims it appended |
| Claims.AddEachPresent | src/wikibasedataconnector/wikibasedataconnector.py:356-360 | on success the loop for a new property builds the new claim of each target, in order, and every target's value is then present |
| Claims.ClaimUpsertShape | src/wikibasedataconnector/wikibasedataconnector.py:346-376 | only the property's claims change; no claim is removed or retargeted; a claim no target names is unchanged; a new property gets exactly the new claim of each target; on success every target is present |
| Claims.ClaimUpsertPresent | src/wikibasedataconnector/wikibasedataconnector.py:362-376 | for a property the entity has, its claims are replaced by those of the loop over the targets, with that loop's outcome |
| Claims.RerunAddsNoClaim | src/wikibasedataconnector/wikibasedataconnector.py:346-376 | after a successful upsert, a second upsert adds no claim |
| Claims.ReconcileSettles | src/wikibasedataconnector/wikibasedataconnector.py:369-371 | with distinct readable reference and qualifier descriptors, reconciling a claim holding at most one value per qualifier property succeeds and a second reconciliation changes nothing |
| Claims.NewClaimSettles | src/wikibasedataconnector/wikibasedataconnector.py:317-331 | under the same conditions a new claim is built and reconciling it again changes nothing |
| Claims.MatchFromPasses | src/wikibasedataconnector/wikibasedataconnector.py:366-372 | the inner loop succeeds when every matching claim's reconciliation does |
| Claims.MatchFromSettled | src/wikibasedataconnector/wikibasedataconnector.py:366-372 | the inner loop leaves claims already settled for its target unchanged, and succeeds |
| Claims.MatchEachSettled | src/wikibasedataconnector/wikibasedataconnector.py:363-376 | once every target is present and its claims are settled for it, the loop changes nothing and succeeds |
| Claims.TargetStepSettles | src/wikibasedataconnector/wikibasedataconnector.py:363-376 | one target on claims settled for the earlier targets succeeds, leaves its own claims settled for it, and leaves the claims holding other values unchanged |
| Claims.MatchEachSettles | src/wikibasedataconnector/wikibasedataconnector.py:363-376 | over targets with distinct values, on claims with at most one value per qualifier property, the loop succeeds and leaves every target present with settled claims |
| Claims.NewClaimsSettled | src/wikibasedataconnector/wikibasedataconnector.py:356-360 | the new claims of targets with distinct values are settled for them |
| Claims.AddEachSettles | src/wikibasedataconnector/wikibasedataconnector.py:356-360 | for a new property over targets with distinct values the loop succeeds and leaves its claims settled |
| Claims.ClaimUpsertSettles | src/wikibasedataconnector/wikibasedataconnector.py:346-376 | with readable descriptors, distinct reference properties, distinct qualifier properties per target, distinct target values and single-valued existing qualifiers, the upsert succeeds and a second run changes nothing |
| Claims.SameValueTargetsDoNotSettle | src/wikibasedataconnector/wikibasedataconnector.py:356-372 | for any property and any qualifier values a and b, two targets with value "v" and qualifier P5 set to a and to b create two claims; a second run turns both into the b claim, so for a different from b the first claim changes |
| Connector.ProcessNeedsMapping | src/wikibasedataconnector/wikibasedataconnector.py:244-245 | without a mapping, processing fails with "mapping required" and changes nothing |
| Connector.FieldEffectFrame | src/wikibasedataconnector/wikibasedataconnector.py:265-276 | a mapping descriptor changes at most the bound entity and never the page |
| Connector.FieldsEffectFrame | src/wikibasedataconnector/wikibasedataconnector.py:265-276 | the mapping loop changes at most the bound entity and never the page |
| Connector.ProcessFrame | src/wikibasedataconnector/wikibasedataconnector.py:241-276 | processing removes no entity, adds only the created one, and changes only the bound and created entities |
| Connector.IdMatchMissCreatesNothing | src/wikibasedataconnector/wikibasedataconnector.py:255-258 | matching by unique key with no query result fails with "no page id" and creates nothing |
| Connector.SpringfieldCreated | src/wikibasedataconnector/wikibasedataconnector.py:259-271 | an unmatched "Springfield" row creates Q1 with label "Springfield" and description "a place", binds it, and the upserts leave it so |
| Connector.SpringfieldRerun | src/wikibasedataconnector/wikibasedataconnector.py:259-271 | rerunning that row once the search finds Q1 changes nothing, although a description edit is still sent |
| Connector.Connector.constructor | src/wikibasedataconnector/wikibasedataconnector.py:14-21 | a connector starts with no page bound, over the given knowledge base and lookups |
| Connector.Connector.CreatePage | src/wikibasedataconnector/wikibasedataconnector.py:146-157 | binds the page as `PageFor` decides, or fails and leaves the page |
| Connector.Connector.AddEntity | src/wikibasedataconnector/wikibasedataconnector.py:23-41 | selects the fields, fails without change when selection fails, otherwise stores the new entity under the answered id, if any |
| Connector.Connector.UpsertLabel | src/wikibasedataconnector/wikibasedataconnector.py:403-411 | the bound entity becomes what `LabelStep` gives; a missing entity fails without change |
| Connector.Connector.UpsertDescription | src/wikibasedataconnector/wikibasedataconnector.py:393-401 | the bound entity becomes what `DescriptionStep` gives |
| Connector.Connector.UpsertAliases | src/wikibasedataconnector/wikibasedataconnector.py:378-391 | the bound entity becomes what `AliasStep` gives |
| Connector.Connector.UpsertClaim | src/wikibasedataconnector/wikibasedataconnector.py:346-376 | the bound entity's claims become what `ClaimUpsert` gives, written back even after a failure |
| Connector.Connector.BindRow | src/wikibasedataconnector/wikibasedataconnector.py:246-264 | finds or creates the row's entity and binds the page exactly as `Match` specifies |
| Connector.Connector.ProcessField | src/wikibasedataconnector/wikibasedataconnector.py:266-276 | one mapping descriptor changes the state and gives the outcome exactly as `FieldEffect` specifies |
| Connector.Connector.Process | src/wikibasedataconnector/wikibasedataconnector.py:241-276 | the new store, page and outcome are exactly those `ProcessEffect` specifies |

## Left out

- Login, site and repository construction, CSRF tokens, the config setters, and `summary`. These are session state and edit comments (lines 14-21, 300-315).
- The HTTP request behind `__search_item_id` and the SPARQL request behind `__get_item_id`. Both are functions passed in. The query text, with its `uniqueIDProp`, is fixed by that function. Both lookups are assumed deterministic.
- `target_equals` and `has_qualifier` are structural equality on `Target`. pywikibot's tolerant comparisons, for example of coordinates, are not modelled.
- Entity creation requests, their JSON payloads, and the print-and-return-`None` handlers. The id the service answers with is the parameter `created`, and `None` stands for a failed request. The datatype of a created property is selected but not stored in the entity.
- Floating-point parsing of coordinates, `WbQuantity` and `Timestamp`/`WbTime` construction. The cell text stands for the parsed value, so a cell that would fail to parse is not an error here.
- KeyErrors from a configuration missing keys other than `mapping`. A description at index -1 without `config.value` is the one modelled case.
- The `_type` assignments (lines 326, 445), the `async` marker on `process`, and the throttle patch.
- Claims, qualifiers and sources are values, not shared objects. Each in-place change is an updated value, which the class writes back into its store. Aliasing between objects is therefore not captured. A new claim that fails half-way leaves nothing, since it is only added to the page afterwards. A matched claim keeps the edits made to it before a failure.
- References.UpdateLink: iterates over the groups present on entry. It does not reproduce how pywikibot's `removeSource` shifts the list during the iteration. A group that loses its only source stays in place, empty. The model also takes `removeSource` to drop one source of the property and keep the rest of its group, while the library removes the whole reference group; for a group holding sources of several properties the model therefore keeps those other sources, which is what the "other properties keep what they had" parts of `References.StepSettles` and `References.RunSettles` rely on. The groups this program builds with `__add_source` (lines 128-144) hold a single source, so they are not affected.
- Qualifiers.ReplaceFirst: the momentary empty qualifier list between `removeQualifier` and `addQualifier` is not represented.
- Targets.Resolve: a failed item search resolves to `ItemRef(None)`, which the model stores like any other target. The code hands `None` to `pwb.ItemPage`, and the remote request that stores such a claim or qualifier would then fail and abort the row. That failure is not modelled.
- Fields.Apply: that sending an empty alias list removes the English list is how the service stores aliases, not something the code states.
- The remote edit requests themselves are not counted. A rewrite with an equal value, such as the description on a rerun, leaves the store unchanged. `DescriptionDecision` states that the edit is still sent.
