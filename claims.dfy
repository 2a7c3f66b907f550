/** Claim reconciliation: `__set_claim_options` and `__upsert_claim`, on the
    claims of one entity. */
module Claims {
  import opened Wrappers
  import opened Base
  import opened Mapping
  import opened Targets
  import opened Entities
  import opened References
  import opened Qualifiers

  /** `__set_claim_options` on a new claim: its target is resolved, then
      the references and the qualifiers are reconciled on it. A failure
      leaves no claim, since the claim is only added to the page after. */
  function NewClaim(td: ClaimTarget, refs: seq<RefDesc>, row: Row, search: SearchOracle): (r: Result<Claim, Error>)
    ensures r.Ok? ==> Readable(td.value, row) && r.value.target == Resolve(td.value, row, search).value
  {
    match Resolve(td.value, row, search)
    case Err(x) => Err(x)
    case Ok(t) =>
      var c0 := Claim(t, map[], []);
      var (c1, o1) := RefsUpsert(c0, [], refs, row);
      RefsUpsertKeepsTarget(c0, [], refs, row);
      if o1.Fail? then Err(o1.error)
      else
        var (c2, o2) := QualifiersUpsert(c1, td.qualifiers, row, search);
        QualifiersUpsertKeepsTarget(c1, td.qualifiers, row, search);
        if o2.Fail? then Err(o2.error) else Ok(c2)
  }

  /** References then qualifiers on a claim already on the page. Its
      edits are made in place, so those done before a failure remain. */
  function Reconcile(c: Claim, td: ClaimTarget, refs: seq<RefDesc>, row: Row, search: SearchOracle): (r: (Claim, Outcome<Error>))
    ensures r.0.target == c.target
  {
    var (c1, o1) := RefsUpsert(c, c.sources, refs, row);
    RefsUpsertKeepsTarget(c, c.sources, refs, row);
    if o1.Fail? then (c1, o1)
    else
      QualifiersUpsertKeepsTarget(c1, td.qualifiers, row, search);
      QualifiersUpsert(c1, td.qualifiers, row, search)
  }

  /** The result of the inner loop of `__upsert_claim`. */
  datatype Scan = Scan(claims: seq<Claim>, matched: bool, outcome: Outcome<Error>)

  /** The inner loop over the property's claims: every claim whose target
      equals t is reconciled (there is no early exit), and `match_found`
      records whether any was. */
  function MatchFrom(cs: seq<Claim>, t: Target, td: ClaimTarget, refs: seq<RefDesc>, row: Row, search: SearchOracle): Scan
    decreases |cs|
  {
    if cs == [] then Scan([], false, Pass)
    else if cs[0].target == t then
      var (c1, o) := Reconcile(cs[0], td, refs, row, search);
      if o.Fail? then Scan([c1] + cs[1..], true, o)
      else
        var s := MatchFrom(cs[1..], t, td, refs, row, search);
        Scan([c1] + s.claims, true, s.outcome)
    else
      var s := MatchFrom(cs[1..], t, td, refs, row, search);
      Scan([cs[0]] + s.claims, s.matched, s.outcome)
  }

  /** One target of a property the entity already has: reconcile the
      matching claims, or add a new claim when none matched. */
  function TargetStep(cs: seq<Claim>, td: ClaimTarget, refs: seq<RefDesc>, row: Row, search: SearchOracle): (seq<Claim>, Outcome<Error>)
  {
    match Resolve(td.value, row, search)
    case Err(x) => (cs, Fail(x))
    case Ok(t) =>
      var s := MatchFrom(cs, t, td, refs, row, search);
      if s.outcome.Fail? then (s.claims, s.outcome)
      else if s.matched then (s.claims, Pass)
      else
        match NewClaim(td, refs, row, search)
        case Err(x) => (s.claims, Fail(x))
        case Ok(c) => (s.claims + [c], Pass)
  }

  /** The outer loop when the property is present. */
  function MatchEach(cs: seq<Claim>, tds: seq<ClaimTarget>, refs: seq<RefDesc>, row: Row, search: SearchOracle): (seq<Claim>, Outcome<Error>)
    decreases |tds|
  {
    if tds == [] then (cs, Pass)
    else
      var (cs1, o) := TargetStep(cs, tds[0], refs, row, search);
      if o.Fail? then (cs1, o) else MatchEach(cs1, tds[1..], refs, row, search)
  }

  /** The loop when the property is absent: one new claim per target. */
  function AddEach(cs: seq<Claim>, tds: seq<ClaimTarget>, refs: seq<RefDesc>, row: Row, search: SearchOracle): (seq<Claim>, Outcome<Error>)
    decreases |tds|
  {
    if tds == [] then (cs, Pass)
    else
      match NewClaim(tds[0], refs, row, search)
      case Err(x) => (cs, Fail(x))
      case Ok(c) => AddEach(cs + [c], tds[1..], refs, row, search)
  }

  /** `__upsert_claim` on the entity's claims. `addClaim` creates the
      property's list with its first claim. */
  function ClaimUpsert(claims: ClaimMap, p: PropId, tds: seq<ClaimTarget>, refs: seq<RefDesc>, row: Row, search: SearchOracle): (ClaimMap, Outcome<Error>)
  {
    if p !in claims then
      var (cs, o) := AddEach([], tds, refs, row, search);
      (if cs == [] then claims else claims[p := cs], o)
    else
      var (cs, o) := MatchEach(claims[p], tds, refs, row, search);
      (claims[p := cs], o)
  }

  // ---------------------------------------------------------------------
  // Methods

  /** `__set_claim_options`. */
  method SetClaimOptions(td: ClaimTarget, refs: seq<RefDesc>, row: Row, search: SearchOracle) returns (r: Result<Claim, Error>)
    ensures r == NewClaim(td, refs, row, search)
  {
    var t := Resolve(td.value, row, search);
    if t.Err? {
      return Err(t.error);
    }
    var c := Claim(t.value, map[], []);
    var c1, o1 := UpsertReferences(c, refs, row);
    if o1.Fail? {
      return Err(o1.error);
    }
    var c2, o2 := UpsertQualifiers(c1, td.qualifiers, row, search);
    if o2.Fail? {
      return Err(o2.error);
    }
    r := Ok(c2);
  }

  /** The body of the inner loop for a matching claim. */
  method ReconcileClaim(c: Claim, td: ClaimTarget, refs: seq<RefDesc>, row: Row, search: SearchOracle) returns (c': Claim, o: Outcome<Error>)
    ensures (c', o) == Reconcile(c, td, refs, row, search)
  {
    c', o := UpsertReferences(c, refs, row);
    if o.Pass? {
      c', o := UpsertQualifiers(c', td.qualifiers, row, search);
    }
  }

  /** The scan of a suffix, preceded by the claims already visited. */
  function After(done: seq<Claim>, found: bool, s: Scan): Scan
  {
    Scan(done + s.claims, found || s.matched, s.outcome)
  }

  lemma MatchFromUnfold(cs: seq<Claim>, j: nat, t: Target, td: ClaimTarget, refs: seq<RefDesc>, row: Row, search: SearchOracle)
    requires j < |cs|
    ensures MatchFrom(cs[j..], t, td, refs, row, search) ==
      if cs[j].target == t then
        var r := Reconcile(cs[j], td, refs, row, search);
        if r.1.Fail? then Scan([r.0] + cs[j + 1..], true, r.1)
        else After([r.0], true, MatchFrom(cs[j + 1..], t, td, refs, row, search))
      else After([cs[j]], false, MatchFrom(cs[j + 1..], t, td, refs, row, search))
  {
    assert cs[j..][0] == cs[j];
    assert cs[j..][1..] == cs[j + 1..];
  }

  lemma AfterAfter(done: seq<Claim>, found: bool, more: seq<Claim>, found1: bool, s: Scan)
    ensures After(done, found, After(more, found1, s)) == After(done + more, found || found1, s)
  {
    assert done + (more + s.claims) == (done + more) + s.claims;
  }

  /** The inner loop of `__upsert_claim` with its `match_found` flag. */
  method MatchTarget(cs: seq<Claim>, t: Target, td: ClaimTarget, refs: seq<RefDesc>, row: Row, search: SearchOracle)
    returns (cs': seq<Claim>, matchFound: bool, o: Outcome<Error>)
    ensures Scan(cs', matchFound, o) == MatchFrom(cs, t, td, refs, row, search)
  {
    var done: seq<Claim> := [];
    matchFound := false;
    for j := 0 to |cs|
      invariant MatchFrom(cs, t, td, refs, row, search) == After(done, matchFound, MatchFrom(cs[j..], t, td, refs, row, search))
    {
      MatchFromUnfold(cs, j, t, td, refs, row, search);
      var c := cs[j];
      if c.target == t {
        var c1, o1 := ReconcileClaim(c, td, refs, row, search);
        if o1.Fail? {
          assert done + ([c1] + cs[j + 1..]) == done + [c1] + cs[j + 1..];
          return done + [c1] + cs[j + 1..], true, o1;
        }
        AfterAfter(done, matchFound, [c1], true, MatchFrom(cs[j + 1..], t, td, refs, row, search));
        done := done + [c1];
        matchFound := true;
      } else {
        AfterAfter(done, matchFound, [c], false, MatchFrom(cs[j + 1..], t, td, refs, row, search));
        done := done + [c];
      }
    }
    assert cs[|cs|..] == [];
    assert done + [] == done;
    cs' := done;
    o := Pass;
  }

  /** `__upsert_claim`. */
  method UpsertClaims(claims: ClaimMap, p: PropId, tds: seq<ClaimTarget>, refs: seq<RefDesc>, row: Row, search: SearchOracle)
    returns (claims': ClaimMap, o: Outcome<Error>)
    ensures (claims', o) == ClaimUpsert(claims, p, tds, refs, row, search)
  {
    if p !in claims {
      var cs: seq<Claim> := [];
      for i := 0 to |tds|
        invariant AddEach([], tds, refs, row, search) == AddEach(cs, tds[i..], refs, row, search)
      {
        assert tds[i..][1..] == tds[i + 1..];
        var claim := SetClaimOptions(tds[i], refs, row, search);
        if claim.Err? {
          return (if cs == [] then claims else claims[p := cs]), Fail(claim.error);
        }
        cs := cs + [claim.value];
      }
      assert tds[|tds|..] == [];
      return (if cs == [] then claims else claims[p := cs]), Pass;
    } else {
      var cs := claims[p];
      for i := 0 to |tds|
        invariant MatchEach(claims[p], tds, refs, row, search) == MatchEach(cs, tds[i..], refs, row, search)
      {
        assert tds[i..][1..] == tds[i + 1..];
        var target := Resolve(tds[i].value, row, search);
        if target.Err? {
          return claims[p := cs], Fail(target.error);
        }
        var cs1, matchFound, o1 := MatchTarget(cs, target.value, tds[i], refs, row, search);
        cs := cs1;
        if o1.Fail? {
          return claims[p := cs], o1;
        }
        if !matchFound {
          var newClaim := SetClaimOptions(tds[i], refs, row, search);
          if newClaim.Err? {
            return claims[p := cs], Fail(newClaim.error);
          }
          cs := cs + [newClaim.value];
        }
      }
      assert tds[|tds|..] == [];
      return claims[p := cs], Pass;
    }
  }

  // ---------------------------------------------------------------------
  // Properties

  /** Some claim of cs has target t. */
  predicate Present(cs: seq<Claim>, t: Target)
  {
    exists i :: 0 <= i < |cs| && cs[i].target == t
  }

  /** cs1 keeps the claims of cs in place, with their targets, and may
      have more after them. */
  predicate KeepsTargets(cs: seq<Claim>, cs1: seq<Claim>)
  {
    |cs| <= |cs1| && forall i :: 0 <= i < |cs| ==> cs1[i].target == cs[i].target
  }

  lemma PresentKept(cs: seq<Claim>, cs1: seq<Claim>, t: Target)
    requires KeepsTargets(cs, cs1) && Present(cs, t)
    ensures Present(cs1, t)
  {
    var i :| 0 <= i < |cs| && cs[i].target == t;
    assert cs1[i].target == t;
  }

  /** Some claim holds t exactly when the first does or a later one does. */
  lemma PresentCons(cs: seq<Claim>, t: Target)
    requires cs != []
    ensures Present(cs, t) <==> cs[0].target == t || Present(cs[1..], t)
  {
    if Present(cs[1..], t) {
      var i :| 0 <= i < |cs[1..]| && cs[1..][i].target == t;
      assert cs[i + 1].target == t;
    }
    if Present(cs, t) && cs[0].target != t {
      var i :| 0 <= i < |cs| && cs[i].target == t;
      assert cs[1..][i - 1].target == t;
    }
  }

  /** Putting one claim with the target of c in front of claims that keep
      the targets of cs keeps the targets of [c] + cs. */
  lemma KeepsTargetsCons(c: Claim, cs: seq<Claim>, c1: Claim, cs1: seq<Claim>)
    requires c1.target == c.target && |cs1| == |cs| && KeepsTargets(cs, cs1)
    ensures |[c1] + cs1| == |[c] + cs| && KeepsTargets([c] + cs, [c1] + cs1)
  {
    forall i | 0 < i < |cs| + 1 ensures ([c1] + cs1)[i].target == ([c] + cs)[i].target {
      assert ([c1] + cs1)[i] == cs1[i - 1] && ([c] + cs)[i] == cs[i - 1];
    }
  }

  /** The inner loop keeps every claim, with its target, and finds a match
      exactly when some claim has the target. */
  lemma {:induction false} MatchFromShape(cs: seq<Claim>, t: Target, td: ClaimTarget, refs: seq<RefDesc>, row: Row, search: SearchOracle)
    ensures var s := MatchFrom(cs, t, td, refs, row, search);
      |s.claims| == |cs| && KeepsTargets(cs, s.claims) && (s.matched <==> Present(cs, t))
    decreases |cs|
  {
    if cs != [] {
      MatchFromShape(cs[1..], t, td, refs, row, search);
      PresentCons(cs, t);
      var s1 := MatchFrom(cs[1..], t, td, refs, row, search);
      assert [cs[0]] + cs[1..] == cs;
      if cs[0].target == t {
        var (c1, o) := Reconcile(cs[0], td, refs, row, search);
        if o.Fail? {
          KeepsTargetsCons(cs[0], cs[1..], c1, cs[1..]);
        } else {
          KeepsTargetsCons(cs[0], cs[1..], c1, s1.claims);
        }
      } else {
        KeepsTargetsCons(cs[0], cs[1..], cs[0], s1.claims);
      }
    }
  }

  /** cs1 has the claims of cs, with every claim whose target is not t
      left as it was. */
  predicate OthersKept(cs: seq<Claim>, cs1: seq<Claim>, t: Target)
  {
    |cs1| == |cs| && forall i :: 0 <= i < |cs| && cs[i].target != t ==> cs1[i] == cs[i]
  }

  /** Every claim of cs before index j whose target is t is reconciled in
      cs1. */
  predicate ReconciledBefore(cs: seq<Claim>, cs1: seq<Claim>, j: int, t: Target, td: ClaimTarget, refs: seq<RefDesc>, row: Row, search: SearchOracle)
  {
    0 <= j <= |cs| == |cs1| &&
    forall i :: 0 <= i < j && cs[i].target == t ==> cs1[i] == Reconcile(cs[i], td, refs, row, search).0
  }

  /** The inner loop failed at claim j: the claims before j whose target is
      t are reconciled, j holds the edits made before the failure, and
      the claims after j are left as they were. */
  predicate FailedAt(cs: seq<Claim>, s: Scan, j: int, t: Target, td: ClaimTarget, refs: seq<RefDesc>, row: Row, search: SearchOracle)
  {
    ReconciledBefore(cs, s.claims, j, t, td, refs, row, search) && j < |cs| && cs[j].target == t &&
    Reconcile(cs[j], td, refs, row, search) == (s.claims[j], s.outcome) &&
    forall i :: j < i < |cs| ==> s.claims[i] == cs[i]
  }

  /** The inner loop leaves every claim whose target is not t as it was. */
  lemma {:induction false} MatchFromKeepsOthers(cs: seq<Claim>, t: Target, td: ClaimTarget, refs: seq<RefDesc>, row: Row, search: SearchOracle)
    ensures OthersKept(cs, MatchFrom(cs, t, td, refs, row, search).claims, t)
    decreases |cs|
  {
    if cs != [] {
      MatchFromKeepsOthers(cs[1..], t, td, refs, row, search);
      var s := MatchFrom(cs, t, td, refs, row, search);
      forall i | 0 < i < |cs| ensures cs[1..][i - 1] == cs[i] { }
      if !(cs[0].target == t && Reconcile(cs[0], td, refs, row, search).1.Fail?) {
        var rest := MatchFrom(cs[1..], t, td, refs, row, search);
        forall i | 0 < i < |cs| ensures s.claims[i] == rest.claims[i - 1] { }
      }
    }
  }

  /** On success the inner loop reconciles every claim whose target is t. */
  lemma {:induction false} MatchFromReconciles(cs: seq<Claim>, t: Target, td: ClaimTarget, refs: seq<RefDesc>, row: Row, search: SearchOracle)
    requires MatchFrom(cs, t, td, refs, row, search).outcome.Pass?
    ensures ReconciledBefore(cs, MatchFrom(cs, t, td, refs, row, search).claims, |cs|, t, td, refs, row, search)
    decreases |cs|
  {
    if cs != [] {
      MatchFromReconciles(cs[1..], t, td, refs, row, search);
      var s := MatchFrom(cs, t, td, refs, row, search);
      var rest := MatchFrom(cs[1..], t, td, refs, row, search);
      forall i | 0 < i < |cs| ensures cs[1..][i - 1] == cs[i] && s.claims[i] == rest.claims[i - 1] { }
    }
  }

  /** A failing inner loop failed at one claim whose target is t. */
  lemma {:induction false} MatchFromFailure(cs: seq<Claim>, t: Target, td: ClaimTarget, refs: seq<RefDesc>, row: Row, search: SearchOracle)
    requires MatchFrom(cs, t, td, refs, row, search).outcome.Fail?
    ensures exists j :: FailedAt(cs, MatchFrom(cs, t, td, refs, row, search), j, t, td, refs, row, search)
    decreases |cs|
  {
    var s := MatchFrom(cs, t, td, refs, row, search);
    if cs[0].target == t && Reconcile(cs[0], td, refs, row, search).1.Fail? {
      assert s.claims == [s.claims[0]] + cs[1..];
      assert FailedAt(cs, s, 0, t, td, refs, row, search);
    } else {
      MatchFromFailure(cs[1..], t, td, refs, row, search);
      var rest := MatchFrom(cs[1..], t, td, refs, row, search);
      var j :| FailedAt(cs[1..], rest, j, t, td, refs, row, search);
      var c1 := if cs[0].target == t then Reconcile(cs[0], td, refs, row, search).0 else cs[0];
      assert s == Scan([c1] + rest.claims, s.matched, rest.outcome);
      FailedAtCons(cs[0], c1, cs[1..], rest, s.matched, j, t, td, refs, row, search);
      assert [cs[0]] + cs[1..] == cs;
    }
  }

  /** A failure at j in the claims after the first is a failure at j + 1
      in all of them, the first claim reconciled when it has the target. */
  lemma FailedAtCons(c: Claim, c1: Claim, cs: seq<Claim>, rest: Scan, m: bool, j: int, t: Target, td: ClaimTarget, refs: seq<RefDesc>, row: Row, search: SearchOracle)
    requires FailedAt(cs, rest, j, t, td, refs, row, search)
    requires c1 == if c.target == t then Reconcile(c, td, refs, row, search).0 else c
    ensures FailedAt([c] + cs, Scan([c1] + rest.claims, m, rest.outcome), j + 1, t, td, refs, row, search)
  {
    var all, claims := [c] + cs, [c1] + rest.claims;
    forall i | 0 < i < |all| ensures all[i] == cs[i - 1] && claims[i] == rest.claims[i - 1] { }
  }

  /** One target: an unreadable target changes nothing; otherwise the
      claims are kept with their targets, those with another target are
      left as they were, and on success those with this target are
      reconciled. A target some claim already has adds no claim; a target
      no claim has adds exactly the new claim on success, and on success
      the target is then present. */
  lemma TargetStepShape(cs: seq<Claim>, td: ClaimTarget, refs: seq<RefDesc>, row: Row, search: SearchOracle)
    ensures var (cs1, o) := TargetStep(cs, td, refs, row, search);
      KeepsTargets(cs, cs1) && |cs1| <= |cs| + 1 &&
      (!Readable(td.value, row) ==> cs1 == cs && o.Fail?) &&
      (Readable(td.value, row) ==> forall i :: 0 <= i < |cs| && cs[i].target != Resolve(td.value, row, search).value ==>
        cs1[i] == cs[i]) &&
      (Readable(td.value, row) && o.Pass? ==> forall i :: 0 <= i < |cs| && cs[i].target == Resolve(td.value, row, search).value ==>
        cs1[i] == Reconcile(cs[i], td, refs, row, search).0) &&
      (Readable(td.value, row) && Present(cs, Resolve(td.value, row, search).value) ==> |cs1| == |cs|) &&
      (o.Pass? ==> Readable(td.value, row) && Present(cs1, Resolve(td.value, row, search).value)) &&
      (o.Pass? && !Present(cs, Resolve(td.value, row, search).value) ==>
        NewClaim(td, refs, row, search).Ok? && cs1 == cs + [NewClaim(td, refs, row, search).value])
  {
    if Readable(td.value, row) {
      var t := Resolve(td.value, row, search).value;
      MatchFromShape(cs, t, td, refs, row, search);
      MatchFromKeepsOthers(cs, t, td, refs, row, search);
      var s0 := MatchFrom(cs, t, td, refs, row, search);
      if s0.outcome.Pass? {
        MatchFromReconciles(cs, t, td, refs, row, search);
      }
      if !Present(cs, t) {
        assert s0.claims == cs;
      }
      var s := MatchFrom(cs, t, td, refs, row, search);
      var (cs1, o) := TargetStep(cs, td, refs, row, search);
      if o.Pass? {
        if s.matched {
          PresentKept(cs, cs1, t);
        } else {
          assert cs1[|cs|].target == t;
        }
      }
    }
  }

  /** No readable target of tds resolves to the claim's target. */
  predicate Untargeted(c: Claim, tds: seq<ClaimTarget>, row: Row, search: SearchOracle)
  {
    forall k :: 0 <= k < |tds| && Readable(tds[k].value, row) ==> c.target != Resolve(tds[k].value, row, search).value
  }

  /** The outer loop when the property is present keeps every claim,
      leaves a claim that no target names as it was, and on success every
      target is present. */
  lemma {:induction false} MatchEachShape(cs: seq<Claim>, tds: seq<ClaimTarget>, refs: seq<RefDesc>, row: Row, search: SearchOracle)
    ensures var (cs1, o) := MatchEach(cs, tds, refs, row, search);
      KeepsTargets(cs, cs1) &&
      (forall i :: 0 <= i < |cs| && Untargeted(cs[i], tds, row, search) ==> cs1[i] == cs[i]) &&
      (o.Pass? ==> forall k :: 0 <= k < |tds| ==>
        Readable(tds[k].value, row) && Present(cs1, Resolve(tds[k].value, row, search).value))
    decreases |tds|
  {
    if tds != [] {
      TargetStepShape(cs, tds[0], refs, row, search);
      var (cs0, o0) := TargetStep(cs, tds[0], refs, row, search);
      if o0.Pass? {
        MatchEachShape(cs0, tds[1..], refs, row, search);
        var (cs1, o) := MatchEach(cs0, tds[1..], refs, row, search);
        forall i | 0 <= i < |cs| && Untargeted(cs[i], tds, row, search) ensures cs1[i] == cs[i] {
          assert cs0[i] == cs[i];
          forall k | 0 <= k < |tds[1..]| ensures tds[1..][k] == tds[k + 1] { }
          assert Untargeted(cs0[i], tds[1..], row, search);
        }
        if o.Pass? {
          PresentKept(cs0, cs1, Resolve(tds[0].value, row, search).value);
          forall k | 0 <= k < |tds|
            ensures Readable(tds[k].value, row) && Present(cs1, Resolve(tds[k].value, row, search).value)
          {
            if k > 0 { assert tds[1..][k - 1] == tds[k]; }
          }
        }
      }
    }
  }

  /** When every readable target is already present, the outer loop adds
      no claim. */
  lemma {:induction false} MatchEachAddsNone(cs: seq<Claim>, tds: seq<ClaimTarget>, refs: seq<RefDesc>, row: Row, search: SearchOracle)
    requires forall k :: 0 <= k < |tds| && Readable(tds[k].value, row) ==> Present(cs, Resolve(tds[k].value, row, search).value)
    ensures |MatchEach(cs, tds, refs, row, search).0| == |cs|
    decreases |tds|
  {
    if tds != [] {
      TargetStepShape(cs, tds[0], refs, row, search);
      var (cs0, o0) := TargetStep(cs, tds[0], refs, row, search);
      if o0.Pass? {
        forall k | 0 <= k < |tds[1..]| && Readable(tds[1..][k].value, row)
          ensures Present(cs0, Resolve(tds[1..][k].value, row, search).value)
        {
          assert tds[1..][k] == tds[k + 1];
          PresentKept(cs, cs0, Resolve(tds[k + 1].value, row, search).value);
        }
        MatchEachAddsNone(cs0, tds[1..], refs, row, search);
      }
    }
  }

  /** The loop for a new property appends to the claims it starts with
      what it builds from none. */
  lemma {:induction false} AddEachFront(cs: seq<Claim>, tds: seq<ClaimTarget>, refs: seq<RefDesc>, row: Row, search: SearchOracle)
    ensures AddEach(cs, tds, refs, row, search) ==
      (cs + AddEach([], tds, refs, row, search).0, AddEach([], tds, refs, row, search).1)
    decreases |tds|
  {
    if tds != [] && NewClaim(tds[0], refs, row, search).Ok? {
      var c := NewClaim(tds[0], refs, row, search).value;
      AddEachFront(cs + [c], tds[1..], refs, row, search);
      AddEachFront([c], tds[1..], refs, row, search);
      var rest := AddEach([], tds[1..], refs, row, search).0;
      assert (cs + [c]) + rest == cs + ([c] + rest);
      assert [] + [c] == [c];
    } else {
      assert cs + [] == cs;
    }
  }

  /** Built from no claims, the loop yields the new claim of each target, in
      order, up to the first failure. */
  lemma {:induction false} AddEachBuilds(tds: seq<ClaimTarget>, refs: seq<RefDesc>, row: Row, search: SearchOracle)
    ensures var (cs1, o) := AddEach([], tds, refs, row, search);
      |cs1| <= |tds| &&
      (forall k :: 0 <= k < |cs1| ==> NewClaim(tds[k], refs, row, search).Ok? && cs1[k] == NewClaim(tds[k], refs, row, search).value) &&
      (o.Pass? <==> |cs1| == |tds|)
    decreases |tds|
  {
    if tds != [] && NewClaim(tds[0], refs, row, search).Ok? {
      var c := NewClaim(tds[0], refs, row, search).value;
      assert [] + [c] == [c];
      AddEachFront([c], tds[1..], refs, row, search);
      AddEachBuilds(tds[1..], refs, row, search);
      var rest := AddEach([], tds[1..], refs, row, search).0;
      forall k | 0 < k < |[c] + rest| ensures tds[1..][k - 1] == tds[k] && ([c] + rest)[k] == rest[k - 1] { }
    }
  }

  /** The loop when the property is absent appends one claim per target,
      in order, until the first failure. */
  lemma AddEachShape(cs: seq<Claim>, tds: seq<ClaimTarget>, refs: seq<RefDesc>, row: Row, search: SearchOracle)
    ensures var (cs1, o) := AddEach(cs, tds, refs, row, search);
      |cs| <= |cs1| <= |cs| + |tds| && cs1[..|cs|] == cs &&
      (o.Pass? ==> (|cs1| == |cs| + |tds| &&
        forall k :: 0 <= k < |tds| ==> Readable(tds[k].value, row) && cs1[|cs| + k].target == Resolve(tds[k].value, row, search).value))
  {
    AddEachFront(cs, tds, refs, row, search);
    AddEachBuilds(tds, refs, row, search);
    var built := AddEach([], tds, refs, row, search).0;
    assert (cs + built)[..|cs|] == cs;
    assert forall k :: 0 <= k < |built| ==> (cs + built)[|cs| + k] == built[k];
  }

  /** That loop succeeds when the new claim of every target can be built. */
  lemma AddEachSucceeds(cs: seq<Claim>, tds: seq<ClaimTarget>, refs: seq<RefDesc>, row: Row, search: SearchOracle)
    requires forall k :: 0 <= k < |tds| ==> NewClaim(tds[k], refs, row, search).Ok?
    ensures AddEach(cs, tds, refs, row, search).1 == Pass
  {
    if AddEach(cs, tds, refs, row, search).1.Fail? {
      AddEachStopsAtFailure(cs, tds, refs, row, search);
    }
  }

  /** A failing loop stopped at a target whose new claim cannot be built:
      the target after those whose claims it appended. */
  lemma {:induction false} AddEachStopsAtFailure(cs: seq<Claim>, tds: seq<ClaimTarget>, refs: seq<RefDesc>, row: Row, search: SearchOracle)
    requires AddEach(cs, tds, refs, row, search).1.Fail?
    ensures var k := |AddEach(cs, tds, refs, row, search).0| - |cs|;
      0 <= k < |tds| && NewClaim(tds[k], refs, row, search).Err?
    decreases |tds|
  {
    if NewClaim(tds[0], refs, row, search).Ok? {
      var c := NewClaim(tds[0], refs, row, search).value;
      assert AddEach(cs, tds, refs, row, search) == AddEach(cs + [c], tds[1..], refs, row, search);
      AddEachStopsAtFailure(cs + [c], tds[1..], refs, row, search);
      var k := |AddEach(cs, tds, refs, row, search).0| - |cs|;
      assert tds[1..][k - 1] == tds[k];
    }
  }

  /** On success, the claims that loop appends are the new claims of the
      targets, in order. */
  lemma AddEachContents(cs: seq<Claim>, tds: seq<ClaimTarget>, refs: seq<RefDesc>, row: Row, search: SearchOracle)
    requires AddEach(cs, tds, refs, row, search).1.Pass?
    ensures var cs1 := AddEach(cs, tds, refs, row, search).0;
      |cs1| == |cs| + |tds| && cs1[..|cs|] == cs &&
      forall k :: 0 <= k < |tds| ==>
        NewClaim(tds[k], refs, row, search).Ok? && cs1[|cs| + k] == NewClaim(tds[k], refs, row, search).value
  {
    AddEachFront(cs, tds, refs, row, search);
    AddEachBuilds(tds, refs, row, search);
    var built := AddEach([], tds, refs, row, search).0;
    assert (cs + built)[..|cs|] == cs;
    assert forall k :: 0 <= k < |built| ==> (cs + built)[|cs| + k] == built[k];
  }

  /** `__upsert_claim` changes only the claims of its property, never
      removes a claim nor changes a claim's target, leaves a claim that no
      target names as it was, creates the new claim of each target for a
      new property, and on success leaves every target present. */
  lemma ClaimUpsertShape(m: ClaimMap, p: PropId, tds: seq<ClaimTarget>, refs: seq<RefDesc>, row: Row, search: SearchOracle)
    ensures var (m1, o) := ClaimUpsert(m, p, tds, refs, row, search);
      (forall q :: q != p ==> (q in m1 <==> q in m)) &&
      (forall q :: q != p && q in m ==> m1[q] == m[q]) &&
      (p in m ==> p in m1 && KeepsTargets(m[p], m1[p])) &&
      (p in m ==> forall i :: 0 <= i < |m[p]| && Untargeted(m[p][i], tds, row, search) ==> m1[p][i] == m[p][i]) &&
      (p !in m && o.Pass? && tds != [] ==> p in m1 && |m1[p]| == |tds| && forall k :: 0 <= k < |tds| ==>
        NewClaim(tds[k], refs, row, search).Ok? && m1[p][k] == NewClaim(tds[k], refs, row, search).value) &&
      (p !in m && o.Pass? ==> (p in m1 <==> tds != []) && (p in m1 ==> |m1[p]| == |tds|)) &&
      (o.Pass? ==> forall k :: 0 <= k < |tds| ==>
        p in m1 && Readable(tds[k].value, row) && Present(m1[p], Resolve(tds[k].value, row, search).value))
  {
    if p in m {
      MatchEachShape(m[p], tds, refs, row, search);
    } else {
      AddEachShape([], tds, refs, row, search);
      if AddEach([], tds, refs, row, search).1.Pass? {
        AddEachPresent(tds, refs, row, search);
      }
    }
  }

  /** For a new property, a successful loop builds the new claim of each
      target, in order, each holding its target's value. */
  lemma AddEachPresent(tds: seq<ClaimTarget>, refs: seq<RefDesc>, row: Row, search: SearchOracle)
    requires AddEach([], tds, refs, row, search).1.Pass?
    ensures var cs1 := AddEach([], tds, refs, row, search).0;
      |cs1| == |tds| &&
      forall k :: 0 <= k < |tds| ==>
        NewClaim(tds[k], refs, row, search).Ok? && cs1[k] == NewClaim(tds[k], refs, row, search).value &&
        Readable(tds[k].value, row) && Present(cs1, Resolve(tds[k].value, row, search).value)
  {
    AddEachBuilds(tds, refs, row, search);
    var cs1 := AddEach([], tds, refs, row, search).0;
    forall k | 0 <= k < |tds| ensures Present(cs1, Resolve(tds[k].value, row, search).value) {
      assert cs1[k].target == Resolve(tds[k].value, row, search).value;
    }
  }

  /** For a property the entity has, `__upsert_claim` replaces its claims
      by those of the outer loop. */
  lemma ClaimUpsertPresent(m: ClaimMap, p: PropId, tds: seq<ClaimTarget>, refs: seq<RefDesc>, row: Row, search: SearchOracle)
    requires p in m
    ensures ClaimUpsert(m, p, tds, refs, row, search) ==
      (m[p := MatchEach(m[p], tds, refs, row, search).0], MatchEach(m[p], tds, refs, row, search).1)
  {
  }

  /** Running `__upsert_claim` again after a successful run adds no
      claim. */
  lemma RerunAddsNoClaim(m: ClaimMap, p: PropId, tds: seq<ClaimTarget>, refs: seq<RefDesc>, row: Row, search: SearchOracle)
    requires ClaimUpsert(m, p, tds, refs, row, search).1 == Pass
    ensures var m1 := ClaimUpsert(m, p, tds, refs, row, search).0;
      var m2 := ClaimUpsert(m1, p, tds, refs, row, search).0;
      (p in m2 <==> p in m1) && (p in m1 ==> |m2[p]| == |m1[p]| && KeepsTargets(m1[p], m2[p]))
  {
    ClaimUpsertShape(m, p, tds, refs, row, search);
    var m1 := ClaimUpsert(m, p, tds, refs, row, search).0;
    if p in m1 {
      MatchEachAddsNone(m1[p], tds, refs, row, search);
      MatchEachShape(m1[p], tds, refs, row, search);
    } else {
      assert tds == [];
    }
  }

  /** A target whose reconciliation settles after one run: its value, its
      qualifiers and the references can all be read, and no two reference
      descriptors, nor two of its qualifier descriptors, name the same
      property. */
  predicate Settles(td: ClaimTarget, refs: seq<RefDesc>, row: Row)
  {
    Readable(td.value, row) && Distinct(refs) && AllReadable(refs, row) &&
    DistinctQualifiers(td.qualifiers) && forall i :: 0 <= i < |td.qualifiers| ==> Readable(td.qualifiers[i].target, row)
  }

  /** A claim that reconciling for td leaves as it is. */
  predicate Settled(c: Claim, td: ClaimTarget, refs: seq<RefDesc>, row: Row, search: SearchOracle)
  {
    Reconcile(c, td, refs, row, search) == (c, Pass)
  }

  /** Reconciling a claim that holds at most one value per qualifier
      property succeeds, and reconciling the result again changes
      nothing. */
  lemma ReconcileSettles(c: Claim, td: ClaimTarget, refs: seq<RefDesc>, row: Row, search: SearchOracle)
    requires Settles(td, refs, row) && SingleValued(c)
    ensures Reconcile(c, td, refs, row, search).1 == Pass
    ensures Settled(Reconcile(c, td, refs, row, search).0, td, refs, row, search)
  {
    RunSettles(c, c.sources, refs, row);
    RefsUpsertKeepsTarget(c, c.sources, refs, row);
    var c1 := RefsUpsert(c, c.sources, refs, row).0;
    QualifiersSettle(c1, td.qualifiers, row, search);
    QualifiersUpsertKeepsTarget(c1, td.qualifiers, row, search);
    var c2 := QualifiersUpsert(c1, td.qualifiers, row, search).0;
    SettledRunIsNoOp(c2, c2.sources, refs, row);
    QualifiersSettledNoOp(c2, td.qualifiers, row, search);
  }

  /** A new claim can be built, and reconciling it again changes nothing. */
  lemma NewClaimSettles(td: ClaimTarget, refs: seq<RefDesc>, row: Row, search: SearchOracle)
    requires Settles(td, refs, row)
    ensures NewClaim(td, refs, row, search).Ok?
    ensures Settled(NewClaim(td, refs, row, search).value, td, refs, row, search)
  {
    var c0 := Claim(Resolve(td.value, row, search).value, map[], []);
    ReconcileSettles(c0, td, refs, row, search);
  }

  /** The readable targets of tds resolve to pairwise different values. */
  predicate DistinctTargets(tds: seq<ClaimTarget>, row: Row, search: SearchOracle)
  {
    forall k, l :: 0 <= k < l < |tds| && Readable(tds[k].value, row) && Readable(tds[l].value, row) ==>
      Resolve(tds[k].value, row, search).value != Resolve(tds[l].value, row, search).value
  }

  /** Every target of tds is held by some claim of cs, and every claim
      holding it is settled for it. */
  predicate SettledFor(cs: seq<Claim>, tds: seq<ClaimTarget>, refs: seq<RefDesc>, row: Row, search: SearchOracle)
  {
    forall k :: 0 <= k < |tds| ==>
      Readable(tds[k].value, row) && Present(cs, Resolve(tds[k].value, row, search).value) &&
      forall i :: 0 <= i < |cs| && cs[i].target == Resolve(tds[k].value, row, search).value ==>
        Settled(cs[i], tds[k], refs, row, search)
  }

  /** The inner loop succeeds when every claim it reconciles does. */
  lemma {:induction false} MatchFromPasses(cs: seq<Claim>, t: Target, td: ClaimTarget, refs: seq<RefDesc>, row: Row, search: SearchOracle)
    requires forall i :: 0 <= i < |cs| && cs[i].target == t ==> Reconcile(cs[i], td, refs, row, search).1 == Pass
    ensures MatchFrom(cs, t, td, refs, row, search).outcome == Pass
    decreases |cs|
  {
    if cs != [] {
      forall i | 0 <= i < |cs[1..]| ensures cs[1..][i] == cs[i + 1] { }
      MatchFromPasses(cs[1..], t, td, refs, row, search);
    }
  }

  /** The inner loop leaves claims that are settled for its target as they
      are. */
  lemma {:induction false} MatchFromSettled(cs: seq<Claim>, t: Target, td: ClaimTarget, refs: seq<RefDesc>, row: Row, search: SearchOracle)
    requires forall i :: 0 <= i < |cs| && cs[i].target == t ==> Settled(cs[i], td, refs, row, search)
    ensures MatchFrom(cs, t, td, refs, row, search).claims == cs
    ensures MatchFrom(cs, t, td, refs, row, search).outcome == Pass
    decreases |cs|
  {
    if cs != [] {
      forall i | 0 <= i < |cs[1..]| ensures cs[1..][i] == cs[i + 1] { }
      MatchFromSettled(cs[1..], t, td, refs, row, search);
      assert [cs[0]] + cs[1..] == cs;
    }
  }

  /** The outer loop changes nothing once every target is held by claims
      settled for it. */
  lemma {:induction false} MatchEachSettled(cs: seq<Claim>, tds: seq<ClaimTarget>, refs: seq<RefDesc>, row: Row, search: SearchOracle)
    requires SettledFor(cs, tds, refs, row, search)
    ensures MatchEach(cs, tds, refs, row, search) == (cs, Pass)
    decreases |tds|
  {
    if tds != [] {
      var t := Resolve(tds[0].value, row, search).value;
      MatchFromSettled(cs, t, tds[0], refs, row, search);
      MatchFromShape(cs, t, tds[0], refs, row, search);
      forall k | 0 <= k < |tds[1..]| ensures tds[1..][k] == tds[k + 1] { }
      MatchEachSettled(cs, tds[1..], refs, row, search);
    }
  }

  /** One target on claims already settled for the targets done before
      it: the step succeeds, every claim holding its target is then settled
      for it, and the claims holding any other target are those of cs,
      unchanged. */
  lemma TargetStepSettles(cs: seq<Claim>, done: seq<ClaimTarget>, td: ClaimTarget, refs: seq<RefDesc>, row: Row, search: SearchOracle)
    requires SettledFor(cs, done, refs, row, search) && Settles(td, refs, row)
    requires forall k :: 0 <= k < |done| ==>
      Readable(done[k].value, row) && Resolve(done[k].value, row, search).value != Resolve(td.value, row, search).value
    requires forall i :: 0 <= i < |cs| && cs[i].target == Resolve(td.value, row, search).value ==> SingleValued(cs[i])
    ensures var (cs0, o) := TargetStep(cs, td, refs, row, search);
      o == Pass && SettledFor(cs0, done + [td], refs, row, search) &&
      forall i :: 0 <= i < |cs0| && cs0[i].target != Resolve(td.value, row, search).value ==> i < |cs| && cs0[i] == cs[i]
  {
    var t := Resolve(td.value, row, search).value;
    forall i | 0 <= i < |cs| && cs[i].target == t ensures Reconcile(cs[i], td, refs, row, search).1 == Pass {
      ReconcileSettles(cs[i], td, refs, row, search);
    }
    MatchFromPasses(cs, t, td, refs, row, search);
    NewClaimSettles(td, refs, row, search);
    TargetStepShape(cs, td, refs, row, search);
    var (cs0, o) := TargetStep(cs, td, refs, row, search);
    assert o == Pass;
    forall i | 0 <= i < |cs0| && cs0[i].target != t ensures i < |cs| && cs0[i] == cs[i] {
    }
    var all := done + [td];
    forall k | 0 <= k < |all|
      ensures Readable(all[k].value, row) && Present(cs0, Resolve(all[k].value, row, search).value)
      ensures forall i :: 0 <= i < |cs0| && cs0[i].target == Resolve(all[k].value, row, search).value ==>
        Settled(cs0[i], all[k], refs, row, search)
    {
      if k < |done| {
        assert all[k] == done[k];
        PresentKept(cs, cs0, Resolve(done[k].value, row, search).value);
      } else {
        assert all[k] == td;
        forall i | 0 <= i < |cs0| && cs0[i].target == t ensures Settled(cs0[i], td, refs, row, search) {
          if i < |cs| {
            ReconcileSettles(cs[i], td, refs, row, search);
          }
        }
      }
    }
  }

  /** Distinct values for done + tds: the first of tds differs from every
      readable target done and from every later one, and done with it
      followed by the rest is the same sequence. */
  lemma DistinctTargetsNext(done: seq<ClaimTarget>, tds: seq<ClaimTarget>, row: Row, search: SearchOracle)
    requires tds != [] && Readable(tds[0].value, row)
    requires DistinctTargets(done + tds, row, search)
    requires forall k :: 0 <= k < |done| ==> Readable(done[k].value, row)
    ensures forall k :: 0 <= k < |done| ==>
      Readable(done[k].value, row) && Resolve(done[k].value, row, search).value != Resolve(tds[0].value, row, search).value
    ensures forall l :: 1 <= l < |tds| && Readable(tds[l].value, row) ==>
      Resolve(tds[l].value, row, search).value != Resolve(tds[0].value, row, search).value
    ensures (done + [tds[0]]) + tds[1..] == done + tds
  {
    var all := done + tds;
    forall k | 0 <= k < |done|
      ensures Resolve(done[k].value, row, search).value != Resolve(tds[0].value, row, search).value
    {
      assert all[k] == done[k] && all[|done|] == tds[0];
    }
    forall l | 1 <= l < |tds| && Readable(tds[l].value, row)
      ensures Resolve(tds[l].value, row, search).value != Resolve(tds[0].value, row, search).value
    {
      assert all[|done|] == tds[0] && all[|done| + l] == tds[l];
    }
  }

  /** Claims of cs0 holding another value than t are claims of cs, so a
      bound on their qualifiers carries over. */
  lemma SingleValuedKept(cs: seq<Claim>, cs0: seq<Claim>, t: Target, tds: seq<ClaimTarget>, row: Row, search: SearchOracle)
    requires tds != []
    requires forall i :: 0 <= i < |cs0| && cs0[i].target != t ==> i < |cs| && cs0[i] == cs[i]
    requires forall l :: 1 <= l < |tds| && Readable(tds[l].value, row) ==>
      Resolve(tds[l].value, row, search).value != t
    requires forall i, k ::
      (0 <= i < |cs| && 0 <= k < |tds| && Readable(tds[k].value, row) &&
       cs[i].target == Resolve(tds[k].value, row, search).value) ==> SingleValued(cs[i])
    ensures forall i, k ::
      (0 <= i < |cs0| && 0 <= k < |tds[1..]| && Readable(tds[1..][k].value, row) &&
       cs0[i].target == Resolve(tds[1..][k].value, row, search).value) ==> SingleValued(cs0[i])
  {
    forall i, k |
      0 <= i < |cs0| && 0 <= k < |tds[1..]| && Readable(tds[1..][k].value, row) &&
      cs0[i].target == Resolve(tds[1..][k].value, row, search).value
      ensures SingleValued(cs0[i])
    {
      assert tds[1..][k] == tds[k + 1];
      assert cs0[i] == cs[i];
    }
  }

  /** The outer loop over targets with distinct values, on claims settled
      for the targets done before and holding at most one value per
      qualifier property wherever a target names them, succeeds and
      leaves the claims settled for all of them. */
  lemma {:induction false} MatchEachSettles(cs: seq<Claim>, done: seq<ClaimTarget>, tds: seq<ClaimTarget>, refs: seq<RefDesc>, row: Row, search: SearchOracle)
    requires SettledFor(cs, done, refs, row, search)
    requires forall k :: 0 <= k < |tds| ==> Settles(tds[k], refs, row)
    requires DistinctTargets(done + tds, row, search)
    requires forall i, k ::
      (0 <= i < |cs| && 0 <= k < |tds| && Readable(tds[k].value, row) &&
       cs[i].target == Resolve(tds[k].value, row, search).value) ==> SingleValued(cs[i])
    ensures var (cs1, o) := MatchEach(cs, tds, refs, row, search);
      o == Pass && SettledFor(cs1, done + tds, refs, row, search)
    decreases |tds|
  {
    if tds == [] {
      assert done + tds == done;
    } else {
      var td := tds[0];
      var t := Resolve(td.value, row, search).value;
      DistinctTargetsNext(done, tds, row, search);
      TargetStepSettles(cs, done, td, refs, row, search);
      var cs0 := TargetStep(cs, td, refs, row, search).0;
      var rest := tds[1..];
      SingleValuedKept(cs, cs0, t, tds, row, search);
      forall l | 0 <= l < |rest| ensures Settles(rest[l], refs, row) {
        assert rest[l] == tds[l + 1];
      }
      MatchEachSettles(cs0, done + [td], rest, refs, row, search);
    }
  }

  /** The new claims of targets with distinct values are settled for
      them. */
  lemma NewClaimsSettled(cs: seq<Claim>, tds: seq<ClaimTarget>, refs: seq<RefDesc>, row: Row, search: SearchOracle)
    requires forall k :: 0 <= k < |tds| ==> Settles(tds[k], refs, row)
    requires DistinctTargets(tds, row, search)
    requires |cs| == |tds| && forall k :: 0 <= k < |tds| ==>
      NewClaim(tds[k], refs, row, search).Ok? && cs[k] == NewClaim(tds[k], refs, row, search).value
    ensures SettledFor(cs, tds, refs, row, search)
  {
    forall k | 0 <= k < |tds|
      ensures Present(cs, Resolve(tds[k].value, row, search).value)
      ensures forall i :: 0 <= i < |cs| && cs[i].target == Resolve(tds[k].value, row, search).value ==>
        Settled(cs[i], tds[k], refs, row, search)
    {
      NewClaimSettles(tds[k], refs, row, search);
      forall i | 0 <= i < |cs| && cs[i].target == Resolve(tds[k].value, row, search).value
        ensures i == k
      {
        assert cs[i].target == Resolve(tds[i].value, row, search).value;
      }
    }
  }

  /** The loop for a new property over targets with distinct values
      succeeds and leaves its new claims settled for them. */
  lemma AddEachSettles(tds: seq<ClaimTarget>, refs: seq<RefDesc>, row: Row, search: SearchOracle)
    requires forall k :: 0 <= k < |tds| ==> Settles(tds[k], refs, row)
    requires DistinctTargets(tds, row, search)
    ensures var (cs1, o) := AddEach([], tds, refs, row, search);
      o == Pass && SettledFor(cs1, tds, refs, row, search)
  {
    forall k | 0 <= k < |tds| ensures NewClaim(tds[k], refs, row, search).Ok? {
      NewClaimSettles(tds[k], refs, row, search);
    }
    AddEachSucceeds([], tds, refs, row, search);
    AddEachContents([], tds, refs, row, search);
    var cs1 := AddEach([], tds, refs, row, search).0;
    assert forall k :: 0 <= k < |tds| ==> cs1[k] == cs1[0 + k];
    NewClaimsSettled(cs1, tds, refs, row, search);
  }

  /** With readable descriptors, distinct reference properties, distinct
      qualifier properties within each target, distinct target values, and
      existing claims holding at most one value per qualifier property,
      `__upsert_claim` succeeds and a second run changes nothing. */
  lemma ClaimUpsertSettles(m: ClaimMap, p: PropId, tds: seq<ClaimTarget>, refs: seq<RefDesc>, row: Row, search: SearchOracle)
    requires forall k :: 0 <= k < |tds| ==> Settles(tds[k], refs, row)
    requires DistinctTargets(tds, row, search)
    requires p in m ==> forall i :: 0 <= i < |m[p]| ==> SingleValued(m[p][i])
    ensures var (m1, o) := ClaimUpsert(m, p, tds, refs, row, search);
      o == Pass && ClaimUpsert(m1, p, tds, refs, row, search) == (m1, Pass)
  {
    if p in m {
      assert [] + tds == tds;
      MatchEachSettles(m[p], [], tds, refs, row, search);
      var cs1 := MatchEach(m[p], tds, refs, row, search).0;
      MatchEachSettled(cs1, tds, refs, row, search);
      var m1 := m[p := cs1];
      assert m1[p := cs1] == m1;
    } else {
      AddEachSettles(tds, refs, row, search);
      var cs1 := AddEach([], tds, refs, row, search).0;
      if tds != [] {
        MatchEachSettled(cs1, tds, refs, row, search);
        var m1 := m[p := cs1];
        assert m1[p := cs1] == m1;
      }
    }
  }

  /** A constant target "v" qualified by P5 with the constant q, and the
      claim it creates when there are no reference descriptors. */
  function ExampleTarget(q: string): ClaimTarget
  {
    ClaimTarget(ValueDesc(StringKind, -1, "v"), [QualifierDesc("P5", ValueDesc(StringKind, -1, q))])
  }

  function ExampleClaim(q: string): Claim
  {
    Claim(Str("v"), map["P5" := [Str(q)]], [])
  }

  /** Reconciling either example claim for either example target leaves the
      target's qualifier in place of the claim's. */
  lemma ExampleReconcile(q: string, q1: string, search: SearchOracle)
    ensures NewClaim(ExampleTarget(q), [], [], search) == Ok(ExampleClaim(q))
    ensures Reconcile(ExampleClaim(q1), ExampleTarget(q), [], [], search) == (ExampleClaim(q), Pass)
  {
    var c0 := Claim(Str("v"), map[], []);
    assert [] + [Str(q)] == [Str(q)];
    assert c0.qualifiers["P5" := [Str(q)]] == ExampleClaim(q).qualifiers;
    assert QualifierStep(c0, "P5", Str(q)) == ExampleClaim(q);
    var qs := ExampleTarget(q).qualifiers;
    assert qs[1..] == [];
    assert QualifiersUpsert(c0, qs, [], search) == (ExampleClaim(q), Pass);
    var c := ExampleClaim(q1);
    if q1 != q {
      assert [Str(q1)][1..] + [Str(q)] == [Str(q)];
    }
    assert c.qualifiers["P5" := [Str(q)]] == ExampleClaim(q).qualifiers;
    assert QualifierStep(c, "P5", Str(q)) == ExampleClaim(q);
  }

  /** The inner loop over one example claim reconciles it for the
      target. */
  lemma ExampleMatchOne(q: string, q1: string, search: SearchOracle)
    ensures MatchFrom([ExampleClaim(q1)], Str("v"), ExampleTarget(q), [], [], search) ==
      Scan([ExampleClaim(q)], true, Pass)
  {
    ExampleReconcile(q, q1, search);
    assert [ExampleClaim(q1)][1..] == [];
  }

  /** The inner loop over two example claims reconciles both for the
      target. */
  lemma ExampleMatch(q: string, q1: string, q2: string, search: SearchOracle)
    ensures MatchFrom([ExampleClaim(q1), ExampleClaim(q2)], Str("v"), ExampleTarget(q), [], [], search) ==
      Scan([ExampleClaim(q), ExampleClaim(q)], true, Pass)
  {
    ExampleReconcile(q, q1, search);
    ExampleMatchOne(q, q2, search);
    var cs := [ExampleClaim(q1), ExampleClaim(q2)];
    assert cs[1..] == [ExampleClaim(q2)];
    assert [ExampleClaim(q)] + [ExampleClaim(q)] == [ExampleClaim(q), ExampleClaim(q)];
  }

  /** One example target over two example claims: both are reconciled for
      it. */
  lemma ExampleStep(q: string, q1: string, q2: string, search: SearchOracle)
    ensures TargetStep([ExampleClaim(q1), ExampleClaim(q2)], ExampleTarget(q), [], [], search) ==
      ([ExampleClaim(q), ExampleClaim(q)], Pass)
  {
    ExampleMatch(q, q1, q2, search);
  }

  /** The first run, for a property the entity lacks, adds one claim per
      example target. */
  lemma ExampleFirstRun(p: PropId, a: string, b: string, search: SearchOracle)
    ensures ClaimUpsert(map[], p, [ExampleTarget(a), ExampleTarget(b)], [], [], search) ==
      (map[p := [ExampleClaim(a), ExampleClaim(b)]], Pass)
  {
    var tds := [ExampleTarget(a), ExampleTarget(b)];
    assert tds[1..] == [ExampleTarget(b)];
    assert tds[1..][1..] == [];
    ExampleReconcile(a, a, search);
    ExampleReconcile(b, b, search);
    assert AddEach([ExampleClaim(a)], tds[1..], [], [], search) == ([ExampleClaim(a), ExampleClaim(b)], Pass) by {
      assert [ExampleClaim(a)] + [ExampleClaim(b)] == [ExampleClaim(a), ExampleClaim(b)];
    }
    assert [] + [ExampleClaim(a)] == [ExampleClaim(a)];
    assert AddEach([], tds, [], [], search) == ([ExampleClaim(a), ExampleClaim(b)], Pass);
  }

  /** The second run reconciles both claims for each example target in
      turn. */
  lemma ExampleSecondRun(m: ClaimMap, p: PropId, a: string, b: string, search: SearchOracle)
    requires p in m && m[p] == [ExampleClaim(a), ExampleClaim(b)]
    ensures ClaimUpsert(m, p, [ExampleTarget(a), ExampleTarget(b)], [], [], search) ==
      (m[p := [ExampleClaim(b), ExampleClaim(b)]], Pass)
  {
    ExampleMatchEach(a, b, search);
    ClaimUpsertPresent(m, p, [ExampleTarget(a), ExampleTarget(b)], [], [], search);
  }

  /** Replacing the only entry of a one-entry map. */
  lemma ReplaceOnly(p: PropId, cs: seq<Claim>, cs1: seq<Claim>)
    ensures map[p := cs][p := cs1] == map[p := cs1]
  {
    var m: ClaimMap := map[p := cs];
    assert m[p := cs1].Keys == map[p := cs1].Keys;
  }

  /** The outer loop of the second run. */
  lemma ExampleMatchEach(a: string, b: string, search: SearchOracle)
    ensures MatchEach([ExampleClaim(a), ExampleClaim(b)], [ExampleTarget(a), ExampleTarget(b)], [], [], search) ==
      ([ExampleClaim(b), ExampleClaim(b)], Pass)
  {
    var tds := [ExampleTarget(a), ExampleTarget(b)];
    assert tds[1..] == [ExampleTarget(b)];
    assert tds[1..][1..] == [];
    ExampleStep(a, a, b, search);
    ExampleStep(b, a, a, search);
    assert MatchEach([ExampleClaim(a), ExampleClaim(a)], tds[1..], [], [], search) ==
      ([ExampleClaim(b), ExampleClaim(b)], Pass);
  }

  /** Two targets with the same value but different qualifier values a and
      b never settle: for a property p the entity lacks they give one claim
      each, and a second run reconciles both claims for each target in
      turn, leaving both with b, so the first claim changes. */
  lemma SameValueTargetsDoNotSettle(p: PropId, a: string, b: string, search: SearchOracle)
    ensures var tds := [ExampleTarget(a), ExampleTarget(b)];
      ClaimUpsert(map[], p, tds, [], [], search) == (map[p := [ExampleClaim(a), ExampleClaim(b)]], Pass) &&
      ClaimUpsert(map[p := [ExampleClaim(a), ExampleClaim(b)]], p, tds, [], [], search) ==
        (map[p := [ExampleClaim(b), ExampleClaim(b)]], Pass)
    ensures a != b ==> ExampleClaim(a) != ExampleClaim(b)
  {
    ExampleFirstRun(p, a, b, search);
    ExampleSecondRun(map[p := [ExampleClaim(a), ExampleClaim(b)]], p, a, b, search);
    ReplaceOnly(p, [ExampleClaim(a), ExampleClaim(b)], [ExampleClaim(b), ExampleClaim(b)]);
    if a != b {
      assert ExampleClaim(a).qualifiers["P5"] != ExampleClaim(b).qualifiers["P5"];
    }
  }
}
