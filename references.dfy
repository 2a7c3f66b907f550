/** Reference reconciliation: `__upsert_references`, `__update_link` and
    `__add_source`, on one claim's source groups. */
module References {
  import opened Wrappers
  import opened Base
  import opened Mapping
  import opened Targets
  import opened Entities

  /** The value a reference descriptor asks for: its constant when the index
      is -1, otherwise its row cell. */
  function RefValue(r: RefDesc, row: Row): Result<string, Error>
  {
    if r.idx == -1 then Ok(r.value) else Cell(row, r.idx)
  }

  /** The lookup built before the loop, asked for p: the first source for p
      of the last group that lists p (the dictionary is built group by
      group, so a later group overwrites an earlier one). */
  function Lookup(gs: seq<PropValues>, p: PropId): Option<Target>
  {
    if gs == [] then None
    else if p in gs[|gs| - 1] then Some(gs[|gs| - 1][p][0])
    else Lookup(gs[..|gs| - 1], p)
  }

  /** `claim.addSource`: a new group holding the one source. */
  function AddSource(c: Claim, p: PropId, v: string): Claim
  {
    c.(sources := c.sources + [map[p := [Str(v)]]])
  }

  /** A group after its first source for p is removed; p leaves the group
      with its last source. */
  function DropFirst(g: PropValues, p: PropId): PropValues
    requires p in g
  {
    if |g[p]| == 1 then g - {p} else g[p := g[p][1..]]
  }

  /** `claim.removeSource` of the first source for p in group i. */
  function RemoveSource(c: Claim, i: nat, p: PropId): Claim
    requires i < |c.sources| && p in c.sources[i]
  {
    c.(sources := c.sources[i := DropFirst(c.sources[i], p)])
  }

  function Touched(g: PropValues, p: PropId): PropValues
  {
    if p in g then DropFirst(g, p) else g
  }

  /** How many groups hold a source for p. */
  function CountWith(gs: seq<PropValues>, p: PropId): nat
  {
    if gs == [] then 0 else CountWith(gs[..|gs| - 1], p) + (if p in gs[|gs| - 1] then 1 else 0)
  }

  /** The claim after `__update_link`: each group present on entry that
      holds p loses its first source for p, and one added group holding the
      new value is appended per such group. */
  function Relinked(c: Claim, p: PropId, v: string): Claim
  {
    c.(sources :=
      seq(|c.sources|, i requires 0 <= i < |c.sources| => Touched(c.sources[i], p)) +
      seq(CountWith(c.sources, p), _ => map[p := [Str(v)]]))
  }

  /** The groups cur after `__update_link` has visited the first i of the
      groups gs present on entry: those are touched, the rest are as on
      entry, and one added group follows per visited group that held p. */
  predicate RelinkedUpTo(gs: seq<PropValues>, cur: seq<PropValues>, p: PropId, v: string, i: nat)
    requires i <= |gs|
  {
    |cur| == |gs| + CountWith(gs[..i], p) &&
    (forall j :: 0 <= j < i ==> cur[j] == Touched(gs[j], p)) &&
    (forall j :: i <= j < |gs| ==> cur[j] == gs[j]) &&
    (forall j :: |gs| <= j < |cur| ==> cur[j] == map[p := [Str(v)]])
  }

  /** Visiting group i: it still holds what it held on entry, and when it
      holds p its first source for p goes and one added group follows. */
  lemma RelinkStep(gs: seq<PropValues>, cur: seq<PropValues>, p: PropId, v: string, i: nat)
    requires i < |gs| && RelinkedUpTo(gs, cur, p, v, i)
    ensures cur[i] == gs[i]
    ensures p in gs[i] ==> RelinkedUpTo(gs, cur[i := DropFirst(cur[i], p)] + [map[p := [Str(v)]]], p, v, i + 1)
    ensures p !in gs[i] ==> RelinkedUpTo(gs, cur, p, v, i + 1)
  {
    assert gs[..i + 1][..i] == gs[..i];
  }

  /** Once every group is visited the groups are those of `Relinked`. */
  lemma RelinkDone(c: Claim, cur: seq<PropValues>, p: PropId, v: string)
    requires RelinkedUpTo(c.sources, cur, p, v, |c.sources|)
    ensures cur == Relinked(c, p, v).sources
  {
    assert c.sources[..|c.sources|] == c.sources;
  }

  /** `__update_link`, iterating over the groups present on entry. */
  method UpdateLink(c: Claim, p: PropId, v: string) returns (c': Claim)
    ensures c' == Relinked(c, p, v)
  {
    var n := |c.sources|;
    c' := c;
    assert c.sources[..0] == [];
    for i := 0 to n
      invariant c'.target == c.target && c'.qualifiers == c.qualifiers
      invariant RelinkedUpTo(c.sources, c'.sources, p, v, i)
    {
      RelinkStep(c.sources, c'.sources, p, v, i);
      if p in c'.sources[i] {
        c' := RemoveSource(c', i, p);
        c' := AddSource(c', p, v);
      }
    }
    RelinkDone(c, c'.sources, p, v);
  }

  /** What one reference descriptor does, given the groups present on
      entry: add a source when the property is absent, relink when its value
      differs, nothing when it is equal. */
  function RefStep(c: Claim, entry: seq<PropValues>, p: PropId, v: string): Claim
  {
    match Lookup(entry, p)
    case None => AddSource(c, p, v)
    case Some(t) => if Str(v) != t then Relinked(c, p, v) else c
  }

  /** The loop of `__upsert_references` over the descriptors, stopping at
      the first one whose value cannot be read. */
  function RefsUpsert(c: Claim, entry: seq<PropValues>, refs: seq<RefDesc>, row: Row): (Claim, Outcome<Error>)
    decreases |refs|
  {
    if refs == [] then (c, Pass)
    else
      match RefValue(refs[0], row)
      case Err(x) => (c, Fail(x))
      case Ok(v) => RefsUpsert(RefStep(c, entry, refs[0].property, v), entry, refs[1..], row)
  }

  /** `__upsert_references`. */
  method UpsertReferences(c: Claim, refs: seq<RefDesc>, row: Row) returns (c': Claim, o: Outcome<Error>)
    ensures (c', o) == RefsUpsert(c, c.sources, refs, row)
  {
    var entry := c.sources;
    c' := c;
    for i := 0 to |refs|
      invariant RefsUpsert(c, entry, refs, row) == RefsUpsert(c', entry, refs[i..], row)
    {
      var r := refs[i];
      var value := RefValue(r, row);
      if value.Err? {
        return c', Fail(value.error);
      }
      assert refs[i..][1..] == refs[i + 1..];
      var known := Lookup(entry, r.property);
      if known.None? {
        c' := AddSource(c', r.property, value.value);
      }
      if known.Some? && Str(value.value) != known.value {
        c' := UpdateLink(c', r.property, value.value);
      }
    }
    assert refs[|refs|..] == [];
    o := Pass;
  }

  // ---------------------------------------------------------------------
  // Properties

  /** Reference reconciliation only touches the sources. */
  lemma {:induction false} RefsUpsertKeepsTarget(c: Claim, entry: seq<PropValues>, refs: seq<RefDesc>, row: Row)
    ensures RefsUpsert(c, entry, refs, row).0.target == c.target
    ensures RefsUpsert(c, entry, refs, row).0.qualifiers == c.qualifiers
    decreases |refs|
  {
    if refs != [] && RefValue(refs[0], row).Ok? {
      RefsUpsertKeepsTarget(RefStep(c, entry, refs[0].property, RefValue(refs[0], row).value), entry, refs[1..], row);
    }
  }

  /** The lookup finds nothing for p exactly when no group lists p. */
  lemma {:induction false} LookupMissing(gs: seq<PropValues>, p: PropId)
    ensures Lookup(gs, p).None? <==> forall i :: 0 <= i < |gs| ==> p !in gs[i]
  {
    if gs != [] {
      var init := gs[..|gs| - 1];
      LookupMissing(init, p);
      assert forall i :: 0 <= i < |init| ==> init[i] == gs[i];
    }
  }

  /** When group i is the last to list p, the lookup gives the first source
      for p of group i. */
  lemma {:induction false} LookupLastGroupWins(gs: seq<PropValues>, p: PropId, i: nat)
    requires i < |gs| && p in gs[i]
    requires forall j :: i < j < |gs| ==> p !in gs[j]
    ensures Lookup(gs, p) == Some(gs[i][p][0])
  {
    if i < |gs| - 1 {
      var init := gs[..|gs| - 1];
      assert init[i] == gs[i];
      forall j | i < j < |init| ensures p !in init[j] { assert init[j] == gs[j]; }
      LookupLastGroupWins(init, p, i);
    }
  }

  /** The three cases of one reference descriptor. */
  lemma OneReferenceRules(c: Claim, r: RefDesc, row: Row)
    requires RefValue(r, row).Ok?
    ensures var v, known := RefValue(r, row).value, Lookup(c.sources, r.property);
      RefsUpsert(c, c.sources, [r], row) ==
        if known.None? then (c.(sources := c.sources + [map[r.property := [Str(v)]]]), Pass)
        else if known.value == Str(v) then (c, Pass)
        else (Relinked(c, r.property, v), Pass)
  {
    assert [r][1..] == [];
  }

  /** A source of P1 with value "old" is replaced by one with value "new":
      the old group is left without P1 and exactly one source for P1
      remains. */
  lemma ChangedLinkExample(t: Target, row: Row)
    ensures var c := Claim(t, map[], [map["P1" := [Str("old")]]]);
      RefsUpsert(c, c.sources, [RefDesc("P1", -1, "new")], row) ==
        (Claim(t, map[], [map[], map["P1" := [Str("new")]]]), Pass)
  {
    var c := Claim(t, map[], [map["P1" := [Str("old")]]]);
    assert c.sources[..0] == [];
    assert CountWith(c.sources, "P1") == 1;
    assert [RefDesc("P1", -1, "new")][1..] == [];
    var g: PropValues := map["P1" := [Str("old")]];
    assert DropFirst(g, "P1") == map[];
    assert Relinked(c, "P1", "new").sources == [map[], map["P1" := [Str("new")]]];
  }

  /** On a claim with no sources every descriptor adds one group, in order,
      holding its value. */
  lemma {:induction false} FreshClaimSources(c: Claim, refs: seq<RefDesc>, row: Row)
    requires forall i :: 0 <= i < |refs| ==> RefValue(refs[i], row).Ok?
    ensures RefsUpsert(c, [], refs, row).1 == Pass
    ensures RefsUpsert(c, [], refs, row).0.sources ==
      c.sources + seq(|refs|, i requires 0 <= i < |refs| => map[refs[i].property := [Str(RefValue(refs[i], row).value)]])
    decreases |refs|
  {
    if refs != [] {
      var c1 := AddSource(c, refs[0].property, RefValue(refs[0], row).value);
      assert forall i :: 0 <= i < |refs[1..]| ==> RefValue(refs[1..][i], row).Ok? by {
        forall i | 0 <= i < |refs[1..]| ensures RefValue(refs[1..][i], row).Ok? { assert refs[1..][i] == refs[i + 1]; }
      }
      FreshClaimSources(c1, refs[1..], row);
    }
  }

  // ---------------------------------------------------------------------
  // Idempotence

  lemma {:induction false} LookupConcat(gs: seq<PropValues>, hs: seq<PropValues>, p: PropId)
    ensures Lookup(gs + hs, p) == if Lookup(hs, p).Some? then Lookup(hs, p) else Lookup(gs, p)
    decreases |hs|
  {
    if hs == [] {
      assert gs + hs == gs;
    } else {
      assert (gs + hs)[..|gs + hs| - 1] == gs + hs[..|hs| - 1];
      assert (gs + hs)[|gs + hs| - 1] == hs[|hs| - 1];
      LookupConcat(gs, hs[..|hs| - 1], p);
    }
  }

  lemma {:induction false} LookupAdded(p: PropId, v: string, k: nat, q: PropId)
    requires k > 0
    ensures Lookup(seq(k, _ => map[p := [Str(v)]]), q) == if q == p then Some(Str(v)) else None
  {
    var added: seq<PropValues> := seq(k, _ => map[p := [Str(v)]]);
    if q != p && k > 1 {
      assert added[..k - 1] == seq(k - 1, _ => map[p := [Str(v)]]);
      LookupAdded(p, v, k - 1, q);
    } else if q != p {
      assert added[..0] == [];
    }
  }

  /** Group sequences that agree at q, group by group, give the same
      lookup at q. */
  lemma {:induction false} LookupAgree(gs: seq<PropValues>, hs: seq<PropValues>, q: PropId)
    requires |gs| == |hs|
    requires forall i :: 0 <= i < |gs| ==> (q in gs[i] <==> q in hs[i]) && (q in gs[i] ==> gs[i][q][0] == hs[i][q][0])
    ensures Lookup(gs, q) == Lookup(hs, q)
  {
    if gs != [] {
      LookupAgree(gs[..|gs| - 1], hs[..|hs| - 1], q);
    }
  }

  lemma {:induction false} CountWithPositive(gs: seq<PropValues>, p: PropId)
    requires Lookup(gs, p).Some?
    ensures CountWith(gs, p) > 0
  {
    if p !in gs[|gs| - 1] {
      CountWithPositive(gs[..|gs| - 1], p);
    }
  }

  /** The groups gs1 give p the new value and agree with gs0 elsewhere. */
  ghost predicate SettledAt(gs1: seq<PropValues>, gs0: seq<PropValues>, p: PropId, v: string)
  {
    Lookup(gs1, p) == Some(Str(v)) && forall q :: q != p ==> Lookup(gs1, q) == Lookup(gs0, q)
  }

  lemma AddSettles(c: Claim, p: PropId, v: string)
    ensures SettledAt(AddSource(c, p, v).sources, c.sources, p, v)
  {
    var g: PropValues := map[p := [Str(v)]];
    assert [g] == seq(1, _ => g);
    forall q ensures Lookup(c.sources + [g], q) == if q == p then Some(Str(v)) else Lookup(c.sources, q) {
      LookupConcat(c.sources, [g], q);
      LookupAdded(p, v, 1, q);
    }
  }

  /** Looking up q in the relinked groups of c. */
  lemma RelinkLookup(c: Claim, p: PropId, v: string, q: PropId)
    requires CountWith(c.sources, p) > 0
    ensures Lookup(Relinked(c, p, v).sources, q) == if q == p then Some(Str(v)) else Lookup(c.sources, q)
  {
    var gs := c.sources;
    var touched: seq<PropValues> := seq(|gs|, i requires 0 <= i < |gs| => Touched(gs[i], p));
    var k := CountWith(gs, p);
    var added: seq<PropValues> := seq(k, _ => map[p := [Str(v)]]);
    assert Relinked(c, p, v).sources == touched + added;
    LookupConcat(touched, added, q);
    LookupAdded(p, v, k, q);
    if q != p {
      LookupAgree(touched, gs, q);
    }
  }

  lemma RelinkSettles(c: Claim, p: PropId, v: string)
    requires Lookup(c.sources, p).Some?
    ensures SettledAt(Relinked(c, p, v).sources, c.sources, p, v)
  {
    CountWithPositive(c.sources, p);
    forall q ensures Lookup(Relinked(c, p, v).sources, q) == if q == p then Some(Str(v)) else Lookup(c.sources, q) {
      RelinkLookup(c, p, v, q);
    }
  }

  /** One step leaves the live groups giving p the new value, provided the
      groups present on entry still agree with them at p, and leaves every
      other property alone. */
  lemma StepSettles(c: Claim, entry: seq<PropValues>, p: PropId, v: string)
    requires Lookup(entry, p) == Lookup(c.sources, p)
    ensures SettledAt(RefStep(c, entry, p, v).sources, c.sources, p, v)
  {
    if Lookup(entry, p).None? {
      AddSettles(c, p, v);
    } else if Str(v) != Lookup(entry, p).value {
      RelinkSettles(c, p, v);
    }
  }

  /** No two descriptors name the same property. */
  predicate Distinct(refs: seq<RefDesc>)
  {
    forall i, j :: 0 <= i < j < |refs| ==> refs[i].property != refs[j].property
  }

  predicate AllReadable(refs: seq<RefDesc>, row: Row)
  {
    forall i :: 0 <= i < |refs| ==> RefValue(refs[i], row).Ok?
  }

  predicate Sets(refs: seq<RefDesc>, q: PropId)
  {
    exists i :: 0 <= i < |refs| && refs[i].property == q
  }

  /** After a run every descriptor's property has its value in the live
      groups, and other properties are as before. */
  lemma {:induction false} RunSettles(c: Claim, entry: seq<PropValues>, refs: seq<RefDesc>, row: Row)
    requires Distinct(refs) && AllReadable(refs, row)
    requires forall i :: 0 <= i < |refs| ==> Lookup(entry, refs[i].property) == Lookup(c.sources, refs[i].property)
    ensures var (c1, o) := RefsUpsert(c, entry, refs, row);
      o == Pass &&
      (forall i :: 0 <= i < |refs| ==> Lookup(c1.sources, refs[i].property) == Some(Str(RefValue(refs[i], row).value))) &&
      (forall q :: !Sets(refs, q) ==> Lookup(c1.sources, q) == Lookup(c.sources, q))
    decreases |refs|
  {
    if refs != [] {
      var p, v := refs[0].property, RefValue(refs[0], row).value;
      var c0 := RefStep(c, entry, p, v);
      StepSettles(c, entry, p, v);
      var rest := refs[1..];
      forall i | 0 <= i < |rest|
        ensures rest[i] == refs[i + 1] && RefValue(rest[i], row).Ok? && rest[i].property != p
      {
      }
      assert Distinct(rest);
      RunSettles(c0, entry, rest, row);
      var c1 := RefsUpsert(c0, entry, rest, row).0;
      assert !Sets(rest, p);
      forall i | 0 <= i < |refs|
        ensures Lookup(c1.sources, refs[i].property) == Some(Str(RefValue(refs[i], row).value))
      {
        if i > 0 { assert refs[i] == rest[i - 1]; }
      }
      forall q | !Sets(refs, q) ensures Lookup(c1.sources, q) == Lookup(c.sources, q) {
        assert q != p by { assert refs[0].property == p; }
        assert !Sets(rest, q) by {
          forall i | 0 <= i < |rest| ensures rest[i].property != q { assert rest[i] == refs[i + 1]; }
        }
      }
    }
  }

  lemma {:induction false} SettledRunIsNoOp(c: Claim, entry: seq<PropValues>, refs: seq<RefDesc>, row: Row)
    requires AllReadable(refs, row)
    requires forall i :: 0 <= i < |refs| ==> Lookup(entry, refs[i].property) == Some(Str(RefValue(refs[i], row).value))
    ensures RefsUpsert(c, entry, refs, row) == (c, Pass)
    decreases |refs|
  {
    if refs != [] {
      var rest := refs[1..];
      forall i | 0 <= i < |rest|
        ensures RefValue(rest[i], row).Ok? && Lookup(entry, rest[i].property) == Some(Str(RefValue(rest[i], row).value))
      {
        assert rest[i] == refs[i + 1];
      }
      SettledRunIsNoOp(c, entry, rest, row);
    }
  }

  /** With distinct reference properties whose values can be read, a second
      reconciliation of the result changes nothing. */
  lemma RefsUpsertIdempotent(c: Claim, refs: seq<RefDesc>, row: Row)
    requires Distinct(refs) && AllReadable(refs, row)
    ensures var (c1, o) := RefsUpsert(c, c.sources, refs, row);
      o == Pass && RefsUpsert(c1, c1.sources, refs, row) == (c1, Pass)
  {
    RunSettles(c, c.sources, refs, row);
    var c1 := RefsUpsert(c, c.sources, refs, row).0;
    SettledRunIsNoOp(c1, c1.sources, refs, row);
  }
}
