/** Qualifier reconciliation: `__upsert_qualifier` and the loops over a
    target's qualifier descriptors. */
module Qualifiers {
  import opened Wrappers
  import opened Base
  import opened Mapping
  import opened Targets
  import opened Entities

  /** `claim.has_qualifier(p, t)`. */
  predicate HasQualifier(c: Claim, p: PropId, t: Target)
  {
    p in c.qualifiers && t in c.qualifiers[p]
  }

  /** `claim.addQualifier`: t is appended to the qualifiers for p. */
  function AddQualifier(c: Claim, p: PropId, t: Target): Claim
  {
    c.(qualifiers := c.qualifiers[p := (if p in c.qualifiers then c.qualifiers[p] else []) + [t]])
  }

  /** `claim.removeQualifier` of the first qualifier for p followed by
      `claim.addQualifier` of t. */
  function ReplaceFirst(c: Claim, p: PropId, t: Target): Claim
    requires p in c.qualifiers
  {
    c.(qualifiers := c.qualifiers[p := c.qualifiers[p][1..] + [t]])
  }

  /** What one qualifier with target t does to the claim: replace the first
      qualifier for p when it differs, add t when p has none, otherwise
      nothing. */
  function QualifierStep(c: Claim, p: PropId, t: Target): (r: Claim)
    ensures r.target == c.target && r.sources == c.sources
    ensures forall q :: q != p ==> (q in r.qualifiers <==> q in c.qualifiers)
    ensures forall q :: q != p && q in c.qualifiers ==> r.qualifiers[q] == c.qualifiers[q]
    ensures p in r.qualifiers && t in r.qualifiers[p]
    ensures |r.qualifiers[p]| == if p in c.qualifiers then |c.qualifiers[p]| else 1
    ensures p in c.qualifiers && c.qualifiers[p][0] == t ==> r == c
    ensures p in c.qualifiers && c.qualifiers[p][0] != t ==> r.qualifiers[p] == c.qualifiers[p][1..] + [t]
    ensures p !in c.qualifiers ==> r.qualifiers[p] == [t]
  {
    if p in c.qualifiers && c.qualifiers[p][0] != t then ReplaceFirst(c, p, t)
    else if !HasQualifier(c, p, t) then AddQualifier(c, p, t)
    else c
  }

  /** `__upsert_qualifier`: the qualifier's value is resolved first, and a
      value that cannot be read leaves the claim as it was. */
  function QualifierUpsert(c: Claim, q: QualifierDesc, row: Row, search: SearchOracle): (r: (Claim, Outcome<Error>))
    ensures r.1.Fail? <==> !Readable(q.target, row)
    ensures r.1.Fail? ==> r.0 == c
  {
    match Resolve(q.target, row, search)
    case Err(x) => (c, Fail(x))
    case Ok(t) => (QualifierStep(c, q.property, t), Pass)
  }

  /** The loop over a target's qualifier descriptors, in order, stopping at
      the first whose value cannot be read. */
  function QualifiersUpsert(c: Claim, qs: seq<QualifierDesc>, row: Row, search: SearchOracle): (Claim, Outcome<Error>)
    decreases |qs|
  {
    if qs == [] then (c, Pass)
    else
      var (c1, o) := QualifierUpsert(c, qs[0], row, search);
      if o.Fail? then (c1, o) else QualifiersUpsert(c1, qs[1..], row, search)
  }

  /** The qualifier loop of `__set_claim_options` and `__upsert_claim`. */
  method UpsertQualifiers(c: Claim, qs: seq<QualifierDesc>, row: Row, search: SearchOracle) returns (c': Claim, o: Outcome<Error>)
    ensures (c', o) == QualifiersUpsert(c, qs, row, search)
  {
    c' := c;
    for i := 0 to |qs|
      invariant QualifiersUpsert(c, qs, row, search) == QualifiersUpsert(c', qs[i..], row, search)
    {
      assert qs[i..][1..] == qs[i + 1..];
      var step := QualifierUpsert(c', qs[i], row, search);
      if step.1.Fail? {
        return step.0, step.1;
      }
      c' := step.0;
    }
    assert qs[|qs|..] == [];
    o := Pass;
  }

  // ---------------------------------------------------------------------
  // Properties

  lemma {:induction false} ShiftFixed(s: seq<Target>, t: Target, k: nat)
    requires k < |s| && s[1..] + [t] == s
    ensures s[k] == t
    decreases |s| - k
  {
    assert s[k] == (s[1..] + [t])[k];
    if k < |s| - 1 {
      ShiftFixed(s, t, k + 1);
    }
  }

  /** A qualifier step leaves the claim alone exactly when the first
      qualifier for p already is t. */
  lemma QualifierStepFixed(c: Claim, p: PropId, t: Target)
    ensures QualifierStep(c, p, t) == c <==> p in c.qualifiers && c.qualifiers[p][0] == t
  {
    if QualifierStep(c, p, t) == c && p in c.qualifiers && c.qualifiers[p][0] != t {
      var s := c.qualifiers[p];
      assert ReplaceFirst(c, p, t).qualifiers[p] == s[1..] + [t];
      ShiftFixed(s, t, 0);
    }
  }

  /** Replacing rather than duplicating: a single differing qualifier is
      replaced; one equal to the first is left alone; a missing property
      gets its qualifier; a second step with the same target changes
      nothing once the property holds at most one qualifier. */
  lemma QualifierReplacesSingle(c: Claim, p: PropId, t: Target)
    requires p !in c.qualifiers || |c.qualifiers[p]| == 1
    ensures QualifierStep(c, p, t).qualifiers == c.qualifiers[p := [t]]
    ensures QualifierStep(QualifierStep(c, p, t), p, t) == QualifierStep(c, p, t)
  {
    var r := QualifierStep(c, p, t);
    assert r.qualifiers[p] == [t];
  }

  /** With two qualifiers for p of which only the second is t, the step
      removes the first and appends t again, so t is then held twice. */
  lemma QualifierDuplicateWhenSeveral(t0: Target, p: PropId, x: Target, t: Target, sources: seq<PropValues>)
    requires x != t
    ensures QualifierStep(Claim(t0, map[p := [x, t]], sources), p, t).qualifiers == map[p := [t, t]]
  {
    assert [x, t][1..] + [t] == [t, t];
  }

  /** A qualifier loop only changes the qualifiers. */
  lemma {:induction false} QualifiersUpsertKeepsTarget(c: Claim, qs: seq<QualifierDesc>, row: Row, search: SearchOracle)
    ensures QualifiersUpsert(c, qs, row, search).0.target == c.target
    ensures QualifiersUpsert(c, qs, row, search).0.sources == c.sources
    decreases |qs|
  {
    if qs != [] && QualifierUpsert(c, qs[0], row, search).1.Pass? {
      QualifiersUpsertKeepsTarget(QualifierUpsert(c, qs[0], row, search).0, qs[1..], row, search);
    }
  }

  /** No two qualifier descriptors name the same property. */
  predicate DistinctQualifiers(qs: seq<QualifierDesc>)
  {
    forall i, j :: 0 <= i < j < |qs| ==> qs[i].property != qs[j].property
  }

  /** A loop over readable qualifier descriptors with distinct properties
      succeeds and leaves the claim holding every resolved qualifier. */
  lemma {:induction false} QualifiersAllPresent(c: Claim, qs: seq<QualifierDesc>, row: Row, search: SearchOracle)
    requires DistinctQualifiers(qs)
    requires forall i :: 0 <= i < |qs| ==> Readable(qs[i].target, row)
    ensures var (r, o) := QualifiersUpsert(c, qs, row, search);
      o == Pass &&
      forall i :: 0 <= i < |qs| ==> HasQualifier(r, qs[i].property, Resolve(qs[i].target, row, search).value)
    decreases |qs|
  {
    if qs != [] {
      var c1 := QualifierUpsert(c, qs[0], row, search).0;
      var rest := qs[1..];
      forall i | 0 <= i < |rest| ensures rest[i] == qs[i + 1] && Readable(rest[i].target, row) && rest[i].property != qs[0].property {
      }
      assert DistinctQualifiers(rest);
      QualifiersAllPresent(c1, rest, row, search);
      var r := QualifiersUpsert(c1, rest, row, search).0;
      QualifiersKeepOthers(c1, rest, row, search, qs[0].property);
      forall i | 0 <= i < |qs| ensures HasQualifier(r, qs[i].property, Resolve(qs[i].target, row, search).value) {
        if i > 0 { assert qs[i] == rest[i - 1]; }
      }
    }
  }

  /** A qualifier loop leaves a property that none of its descriptors names
      as it was. */
  lemma {:induction false} QualifiersKeepOthers(c: Claim, qs: seq<QualifierDesc>, row: Row, search: SearchOracle, p: PropId)
    requires forall i :: 0 <= i < |qs| ==> qs[i].property != p
    ensures var r := QualifiersUpsert(c, qs, row, search).0;
      (p in r.qualifiers <==> p in c.qualifiers) && (p in c.qualifiers ==> r.qualifiers[p] == c.qualifiers[p])
    decreases |qs|
  {
    if qs != [] && QualifierUpsert(c, qs[0], row, search).1.Pass? {
      var rest := qs[1..];
      forall i | 0 <= i < |rest| ensures rest[i].property != p { assert rest[i] == qs[i + 1]; }
      QualifiersKeepOthers(QualifierUpsert(c, qs[0], row, search).0, rest, row, search, p);
    }
  }

  /** Every qualifier property of the claim holds at most one value. */
  predicate SingleValued(c: Claim)
  {
    forall q :: q in c.qualifiers ==> |c.qualifiers[q]| <= 1
  }

  /** A loop over readable descriptors with distinct properties, on a claim
      holding at most one value for each of those properties, leaves
      exactly the resolved value under each. */
  lemma {:induction false} QualifiersSettle(c: Claim, qs: seq<QualifierDesc>, row: Row, search: SearchOracle)
    requires DistinctQualifiers(qs)
    requires forall i :: 0 <= i < |qs| ==> Readable(qs[i].target, row)
    requires forall i :: 0 <= i < |qs| && qs[i].property in c.qualifiers ==> |c.qualifiers[qs[i].property]| <= 1
    ensures var (r, o) := QualifiersUpsert(c, qs, row, search);
      o == Pass && forall i :: 0 <= i < |qs| ==>
        qs[i].property in r.qualifiers && r.qualifiers[qs[i].property] == [Resolve(qs[i].target, row, search).value]
    decreases |qs|
  {
    if qs != [] {
      var p, t := qs[0].property, Resolve(qs[0].target, row, search).value;
      var c1 := QualifierStep(c, p, t);
      assert c1.qualifiers[p] == [t] by {
        if p in c.qualifiers && c.qualifiers[p][0] == t {
          assert c.qualifiers[p] == [t];
        } else if p in c.qualifiers {
          assert c.qualifiers[p][1..] == [];
        }
      }
      var rest := qs[1..];
      forall i | 0 <= i < |rest|
        ensures rest[i] == qs[i + 1] && Readable(rest[i].target, row) && rest[i].property != p
      {
      }
      assert DistinctQualifiers(rest);
      QualifiersSettle(c1, rest, row, search);
      QualifiersKeepOthers(c1, rest, row, search, p);
      var r := QualifiersUpsert(c1, rest, row, search).0;
      forall i | 0 <= i < |qs|
        ensures qs[i].property in r.qualifiers && r.qualifiers[qs[i].property] == [Resolve(qs[i].target, row, search).value]
      {
        if i > 0 { assert qs[i] == rest[i - 1]; }
      }
    }
  }

  /** A loop whose every resolved value is already first under its
      property changes nothing. */
  lemma {:induction false} QualifiersSettledNoOp(c: Claim, qs: seq<QualifierDesc>, row: Row, search: SearchOracle)
    requires forall i :: 0 <= i < |qs| ==>
      Readable(qs[i].target, row) && qs[i].property in c.qualifiers &&
      c.qualifiers[qs[i].property][0] == Resolve(qs[i].target, row, search).value
    ensures QualifiersUpsert(c, qs, row, search) == (c, Pass)
    decreases |qs|
  {
    if qs != [] {
      var rest := qs[1..];
      forall i | 0 <= i < |rest|
        ensures Readable(rest[i].target, row) && rest[i].property in c.qualifiers &&
          c.qualifiers[rest[i].property][0] == Resolve(rest[i].target, row, search).value
      {
        assert rest[i] == qs[i + 1];
      }
      QualifiersSettledNoOp(c, rest, row, search);
    }
  }
}
