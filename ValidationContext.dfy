/**
  The context claims are validated against (lib/JWX/JWT/ValidationContext.php):
  a reference time, a leeway and constraints keyed by claim name. Every
  `with*` derivation returns a modified copy and leaves the receiver as it was.
 */
module ValidationContext {
  import opened Common

  /** A claim of a claims set: its name and JSON value. */
  datatype Claim = Claim(name: string, value: Json)

  /** Registered claim names (section 4.1 of RFC 7519) used by the constraint wrappers. */
  const NAME_ISSUER := "iss"
  const NAME_SUBJECT := "sub"
  const NAME_AUDIENCE := "aud"
  const NAME_JWT_ID := "jti"

  /** The leeway, in seconds, of a fresh context. */
  const DEFAULT_LEEWAY := 60

  datatype ValidationContext = ValidationContext(refTime: Option<int>, leeway: int, constraints: map<string, Json>)
  {
    /** withReferenceTime: a copy with the reference time replaced (None stands for null). */
    function WithReferenceTime(ts: Option<int>): (r: ValidationContext)
      ensures r.refTime == ts
      ensures r.leeway == leeway && r.constraints == constraints
      ensures r.HasReferenceTime() <==> ts.Some?
    {
      this.(refTime := ts)
    }

    /** hasReferenceTime: isset, so a null reference time counts as absent. */
    predicate HasReferenceTime()
    {
      refTime.Some?
    }

    /** referenceTime: the reference time, or a LogicException when none is set. */
    function ReferenceTime(): (r: Result<int>)
      ensures r.Ok? <==> HasReferenceTime()
      ensures r.Ok? ==> refTime == Some(r.value)
      ensures r.Err? ==> r.error == ReferenceTimeNotSet && r.error.Class() == LogicException
    {
      match refTime
      case Some(t) => Ok(t)
      case None => Err(ReferenceTimeNotSet)
    }

    /** withLeeway: a copy with the leeway replaced. */
    function WithLeeway(seconds: int): (r: ValidationContext)
      ensures r.leeway == seconds
      ensures r.refTime == refTime && r.constraints == constraints
    {
      this.(leeway := seconds)
    }

    /** withConstraint: a copy whose constraint for `name` is `constraint`; null is stored as given. */
    function WithConstraint(name: string, constraint: Json): (r: ValidationContext)
      ensures r.refTime == refTime && r.leeway == leeway
      ensures name in r.constraints && r.constraints[name] == constraint
      ensures forall n :: n != name ==> (n in r.constraints <==> n in constraints)
      ensures forall n :: n != name && n in constraints ==> r.constraints[n] == constraints[n]
    {
      this.(constraints := constraints[name := constraint])
    }

    /** withIssuer: the constraint on the "iss" claim. */
    function WithIssuer(issuer: Json): (r: ValidationContext)
      ensures r.constraints == constraints[NAME_ISSUER := issuer]
      ensures r.refTime == refTime && r.leeway == leeway
    {
      WithConstraint(NAME_ISSUER, issuer)
    }

    /** withSubject: the constraint on the "sub" claim. */
    function WithSubject(subject: Json): (r: ValidationContext)
      ensures r.constraints == constraints[NAME_SUBJECT := subject]
      ensures r.refTime == refTime && r.leeway == leeway
    {
      WithConstraint(NAME_SUBJECT, subject)
    }

    /** withAudience: the constraint on the "aud" claim. */
    function WithAudience(audience: Json): (r: ValidationContext)
      ensures r.constraints == constraints[NAME_AUDIENCE := audience]
      ensures r.refTime == refTime && r.leeway == leeway
    {
      WithConstraint(NAME_AUDIENCE, audience)
    }

    /** withID: the constraint on the "jti" claim. */
    function WithID(id: Json): (r: ValidationContext)
      ensures r.constraints == constraints[NAME_JWT_ID := id]
      ensures r.refTime == refTime && r.leeway == leeway
    {
      WithConstraint(NAME_JWT_ID, id)
    }

    /** hasConstraint: isset, so a constraint stored as null counts as absent. */
    predicate HasConstraint(name: string)
    {
      name in constraints && constraints[name] != JNull
    }

    /** constraint: the constraint for `name`, or a LogicException naming it when none is set. */
    function Constraint(name: string): (r: Result<Json>)
      ensures r.Ok? <==> HasConstraint(name)
      ensures r.Ok? ==> r.value != JNull && name in constraints && r.value == constraints[name]
      ensures r.Err? ==> r.error == ConstraintNotSet(name) && r.error.Class() == LogicException
    {
      if HasConstraint(name) then Ok(constraints[name]) else Err(ConstraintNotSet(name))
    }

    /**
      What validate yields: this context when every claim passes its own check
      against it, otherwise a ValidationException naming the first claim that fails.
     */
    function Outcome(claims: seq<Claim>, valid: (Claim, ValidationContext) -> bool): (r: Result<ValidationContext>)
      ensures r.Ok? <==> forall i :: 0 <= i < |claims| ==> valid(claims[i], this)
      ensures r.Ok? ==> r.value == this
      ensures r.Err? ==> exists k :: 0 <= k < |claims| && r.error == ClaimFailed(claims[k].name)
                                     && !valid(claims[k], this)
                                     && forall j :: 0 <= j < k ==> valid(claims[j], this)
    {
      var k := FirstInvalid(claims, c => valid(c, this));
      if k == |claims| then Ok(this) else Err(ClaimFailed(claims[k].name))
    }

    /**
      validate: claims are checked in order; the first one whose
      validateWithContext fails stops the loop with a ValidationException.
     */
    method Validate(claims: seq<Claim>, valid: (Claim, ValidationContext) -> bool) returns (r: Result<ValidationContext>)
      ensures r == Outcome(claims, valid)
      ensures r.Err? ==> r.error.Class() == ValidationException
    {
      var i := 0;
      while i < |claims|
        invariant 0 <= i <= |claims|
        invariant forall j :: 0 <= j < i ==> valid(claims[j], this)
      {
        if !valid(claims[i], this) {
          FirstInvalidIs(claims, c => valid(c, this), i);
          return Err(ClaimFailed(claims[i].name));
        }
        i := i + 1;
      }
      FirstInvalidIs(claims, c => valid(c, this), |claims|);
      return Ok(this);
    }
  }

  /** new ValidationContext($constraints), with time() given as `now`. */
  function New(constraints: map<string, Json>, now: int): (r: ValidationContext)
    ensures r.leeway == DEFAULT_LEEWAY
    ensures r.HasReferenceTime() && r.ReferenceTime() == Ok(now)
    ensures r.constraints == constraints
  {
    ValidationContext(Some(now), DEFAULT_LEEWAY, constraints)
  }

  /** The index of the first claim that fails `ok`, or |claims| when all pass. */
  function FirstInvalid(claims: seq<Claim>, ok: Claim -> bool): (k: nat)
    ensures k <= |claims|
    ensures forall j :: 0 <= j < k ==> ok(claims[j])
    ensures k < |claims| ==> !ok(claims[k])
  {
    if claims == [] then 0
    else if !ok(claims[0]) then 0
    else 1 + FirstInvalid(claims[1..], ok)
  }

  /** Any index with all earlier claims passing and itself failing (or at the end) is the first failure. */
  lemma FirstInvalidIs(claims: seq<Claim>, ok: Claim -> bool, k: nat)
    requires k <= |claims|
    requires forall j :: 0 <= j < k ==> ok(claims[j])
    requires k < |claims| ==> !ok(claims[k])
    ensures FirstInvalid(claims, ok) == k
  {
  }

  // ---------------------------------------------------------------------------
  // Properties

  /** After withConstraint(n, c) with c not null, n is set to c and every other name is as before. */
  lemma WithConstraintThenConstraint(ctx: ValidationContext, name: string, c: Json, other: string)
    requires c != JNull && other != name
    ensures ctx.WithConstraint(name, c).HasConstraint(name)
    ensures ctx.WithConstraint(name, c).Constraint(name) == Ok(c)
    ensures ctx.WithConstraint(name, c).HasConstraint(other) == ctx.HasConstraint(other)
    ensures ctx.WithConstraint(name, c).Constraint(other) == ctx.Constraint(other)
  {
  }

  /** A constraint set to null is not set: constraint() then fails. */
  lemma NullConstraintIsUnset(ctx: ValidationContext, name: string)
    ensures !ctx.WithConstraint(name, JNull).HasConstraint(name)
    ensures ctx.WithConstraint(name, JNull).Constraint(name) == Err(ConstraintNotSet(name))
  {
  }

  /** withReferenceTime(null) clears the reference time; referenceTime() then fails. */
  lemma ClearedReferenceTime(ctx: ValidationContext)
    ensures !ctx.WithReferenceTime(None).HasReferenceTime()
    ensures ctx.WithReferenceTime(None).ReferenceTime() == Err(ReferenceTimeNotSet)
  {
  }

  /** Validation is all-or-nothing over concatenated claim lists. */
  lemma {:induction false} OutcomeOfConcat(ctx: ValidationContext, a: seq<Claim>, b: seq<Claim>, valid: (Claim, ValidationContext) -> bool)
    ensures ctx.Outcome(a + b, valid) == if ctx.Outcome(a, valid).Err? then ctx.Outcome(a, valid) else ctx.Outcome(b, valid)
  {
    var ok := c => valid(c, ctx);
    var ka := FirstInvalid(a, ok);
    var ab := a + b;
    if ka < |a| {
      assert ab[ka] == a[ka];
      FirstInvalidIs(ab, ok, ka);
    } else {
      var kb := FirstInvalid(b, ok);
      assert forall j :: 0 <= j < |a| ==> ab[j] == a[j];
      assert forall j :: 0 <= j < kb ==> ab[|a| + j] == b[j];
      if kb < |b| {
        assert ab[|a| + kb] == b[kb];
      }
      FirstInvalidIs(ab, ok, |a| + kb);
    }
  }
}
