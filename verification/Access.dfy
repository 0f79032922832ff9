/** The statement scan of the management API's access policies: explicit Deny, then Allow, then default deny. */
module Access {
  import opened Octets
  import Glob

  /** The text operations of the host platform. */
  datatype Platform = Platform(
    lower: string -> string,
    equalIgnoringCase: (string, string) -> bool,
    inNetwork: (string, string) -> bool)

  datatype Effect = Allow | Deny

  datatype ConditionOp =
    | StringEquals | StringNotEquals | StringLike | StringNotLike | IpAddress | NotIpAddress | BoolEquals

  type Context = map<string, seq<string>>

  datatype Request = Request(action: string, resource: string, context: Context)

  predicate Globs(os: Platform, pattern: string, text: string) {
    Glob.Decides(os.lower(pattern), os.lower(text), 0, 0)
  }

  datatype Condition = Condition(op: ConditionOp, key: string, values: seq<string>) {

    predicate IsNegative() {
      op.StringNotEquals? || op.StringNotLike? || op.NotIpAddress?
    }

    predicate PairMatches(os: Platform, actual: string, expected: string) {
      match op
      case StringEquals | StringNotEquals | BoolEquals => os.equalIgnoringCase(actual, expected)
      case StringLike | StringNotLike => Globs(os, expected, actual)
      case IpAddress | NotIpAddress => os.inNetwork(actual, expected)
    }

    predicate Holds(os: Platform, context: Context) {
      var actuals := if key in context then context[key] else [];
      var some := exists a, e :: a in actuals && e in values && PairMatches(os, a, e);
      if IsNegative() then !some else some
    }
  }

  datatype Statement = Statement(
    sid: Option<string>,
    effect: Effect,
    actions: seq<string>,
    resources: seq<string>,
    conditions: seq<Condition>)
  {
    predicate Applies(os: Platform, req: Request) {
      && (exists a :: a in actions && Globs(os, a, req.action))
      && (exists r :: r in resources && Globs(os, r, req.resource))
      && (forall c :: c in conditions ==> c.Holds(os, req.context))
    }
  }

  // ----- what a statement says, part by part -----

  /** Every condition counts, and any one of the actions and any one of the resources suffices. */
  lemma StatementParts(s: Statement, more: Statement, os: Platform, req: Request)
    ensures s.(conditions := s.conditions + more.conditions).Applies(os, req) <==>
            s.Applies(os, req) && s.(conditions := more.conditions).Applies(os, req)
    ensures s.(actions := s.actions + more.actions).Applies(os, req) <==>
            s.Applies(os, req) || s.(actions := more.actions).Applies(os, req)
    ensures s.(resources := s.resources + more.resources).Applies(os, req) <==>
            s.Applies(os, req) || s.(resources := more.resources).Applies(os, req)
    ensures s.actions == [] || s.resources == [] ==> !s.Applies(os, req)
  {
  }

  /** The operator of which a negative one is the denial. */
  function Positive(op: ConditionOp): ConditionOp {
    match op
    case StringNotEquals => StringEquals
    case StringNotLike => StringLike
    case NotIpAddress => IpAddress
    case _ => op
  }

  /** A negative operator holds exactly when its positive twin fails, in particular on an absent key; a positive one
      holds as soon as one value of the key meets one of the values listed. */
  lemma ConditionParts(c: Condition, more: seq<string>, os: Platform, context: Context)
    ensures Positive(c.op) != c.op ==>
              (c.Holds(os, context) <==> !c.(op := Positive(c.op)).Holds(os, context))
    ensures Positive(c.op) == c.op ==>
              && (c.key !in context ==> !c.Holds(os, context))
              && (c.(values := c.values + more).Holds(os, context) <==>
                  c.Holds(os, context) || c.(values := more).Holds(os, context))
              && (c.values == [] ==> !c.Holds(os, context))
  {
    var twin, longer, other := c.(op := Positive(c.op)), c.(values := c.values + more), c.(values := more);
    assert forall a, e :: twin.PairMatches(os, a, e) == c.PairMatches(os, a, e);
    assert forall a, e :: longer.PairMatches(os, a, e) == c.PairMatches(os, a, e) == other.PairMatches(os, a, e);
  }

  // ----- the documented meaning -----

  /** Pattern and text match as documented, regardless of case. */
  ghost predicate Covers(os: Platform, pattern: string, text: string) {
    Glob.Matches(os.lower(pattern), os.lower(text), 0, 0)
  }

  /** No text the request brings contains a `*`, so that the matcher decides as documented. */
  ghost predicate StarFree(os: Platform, req: Request) {
    && '*' !in os.lower(req.action) && '*' !in os.lower(req.resource)
    && forall key, i ::
         key in req.context && 0 <= i < |req.context[key]| ==> '*' !in os.lower(req.context[key][i])
  }

  /** What a positive operator asks of a value of the request and a value listed. */
  ghost predicate Meets(os: Platform, op: ConditionOp, actual: string, listed: string) {
    match op
    case StringLike => Covers(os, listed, actual)
    case IpAddress => os.inNetwork(actual, listed)
    case _ => os.equalIgnoringCase(actual, listed)
  }

  /** Some value the request brings under the key of the condition meets a value listed there. */
  ghost predicate Found(os: Platform, c: Condition, context: Context) {
    c.key in context &&
    exists i, j :: 0 <= i < |context[c.key]| && 0 <= j < |c.values| &&
                   Meets(os, Positive(c.op), context[c.key][i], c.values[j])
  }

  /** The request is one that the statement speaks of. */
  ghost predicate SpeaksOf(os: Platform, s: Statement, req: Request) {
    && (exists i :: 0 <= i < |s.actions| && Covers(os, s.actions[i], req.action))
    && (exists i :: 0 <= i < |s.resources| && Covers(os, s.resources[i], req.resource))
    && (forall i :: 0 <= i < |s.conditions| ==>
          (Found(os, s.conditions[i], req.context) <==> Positive(s.conditions[i].op) == s.conditions[i].op))
  }

  lemma GlobsAsDocumented(os: Platform, pattern: string, text: string)
    requires '*' !in os.lower(text)
    ensures Globs(os, pattern, text) <==> Covers(os, pattern, text)
  {
    Glob.Agrees(os.lower(pattern), os.lower(text));
  }

  lemma HoldsAsDocumented(os: Platform, c: Condition, req: Request)
    requires StarFree(os, req)
    ensures c.Holds(os, req.context) <==> (Found(os, c, req.context) <==> Positive(c.op) == c.op)
  {
    hide Globs, Covers;
    var actuals := if c.key in req.context then req.context[c.key] else [];
    forall i, j | 0 <= i < |actuals| && 0 <= j < |c.values|
      ensures c.PairMatches(os, actuals[i], c.values[j]) <==> Meets(os, Positive(c.op), actuals[i], c.values[j])
    {
      GlobsAsDocumented(os, c.values[j], actuals[i]);
    }
    if a, e :| a in actuals && e in c.values && c.PairMatches(os, a, e) {
      var i :| 0 <= i < |actuals| && actuals[i] == a;
      var j :| 0 <= j < |c.values| && c.values[j] == e;
      assert Meets(os, Positive(c.op), actuals[i], c.values[j]);
    }
    if i, j :| 0 <= i < |actuals| && 0 <= j < |c.values| && Meets(os, Positive(c.op), actuals[i], c.values[j]) {
      assert actuals[i] in actuals && c.values[j] in c.values && c.PairMatches(os, actuals[i], c.values[j]);
    }
  }

  /** A statement applies exactly to the requests it speaks of. */
  lemma AppliesAsDocumented(os: Platform, s: Statement, req: Request)
    requires StarFree(os, req)
    ensures s.Applies(os, req) <==> SpeaksOf(os, s, req)
  {
    hide Globs, Covers, Found;
    forall p: string ensures Globs(os, p, req.action) <==> Covers(os, p, req.action) {
      GlobsAsDocumented(os, p, req.action);
    }
    forall p: string ensures Globs(os, p, req.resource) <==> Covers(os, p, req.resource) {
      GlobsAsDocumented(os, p, req.resource);
    }
    forall i | 0 <= i < |s.conditions|
      ensures s.conditions[i].Holds(os, req.context) <==>
              (Found(os, s.conditions[i], req.context) <==> Positive(s.conditions[i].op) == s.conditions[i].op)
    {
      HoldsAsDocumented(os, s.conditions[i], req);
    }
    assert (forall c :: c in s.conditions ==> c.Holds(os, req.context)) <==>
           forall i :: 0 <= i < |s.conditions| ==> s.conditions[i].Holds(os, req.context);
    assert forall a :: a in s.actions <==> exists i :: 0 <= i < |s.actions| && s.actions[i] == a;
    assert forall a :: a in s.resources <==> exists i :: 0 <= i < |s.resources| && s.resources[i] == a;
  }

  datatype Decision =
    | ExplicitDeny(sid: Option<string>)
    | Granted(sid: Option<string>)
    | ImplicitDeny

  /** Some statement of `policy` with this effect applies. */
  ghost predicate Invoked(policy: seq<Statement>, effect: Effect, os: Platform, req: Request) {
    exists s :: s in policy && s.effect == effect && s.Applies(os, req)
  }

  ghost predicate Grants(policy: seq<Statement>, os: Platform, req: Request) {
    Invoked(policy, Allow, os, req) && !Invoked(policy, Deny, os, req)
  }

  /** `i` is the first applicable statement with this effect. */
  ghost predicate IsFirst(policy: seq<Statement>, i: nat, effect: Effect, os: Platform, req: Request) {
    && i < |policy| && policy[i].effect == effect && policy[i].Applies(os, req)
    && !Invoked(policy[..i], effect, os, req)
  }

  lemma Extend(policy: seq<Statement>, i: nat, effect: Effect, os: Platform, req: Request)
    requires i < |policy|
    ensures Invoked(policy[..i + 1], effect, os, req) <==>
            Invoked(policy[..i], effect, os, req) || (policy[i].effect == effect && policy[i].Applies(os, req))
  {
    assert policy[..i + 1] == policy[..i] + [policy[i]];
  }

  method Evaluate(policy: seq<Statement>, os: Platform, req: Request) returns (decision: Decision)
    ensures decision.Granted? <==> Grants(policy, os, req)
    ensures decision.ExplicitDeny? <==> Invoked(policy, Deny, os, req)
    ensures decision.ExplicitDeny? ==>
              exists i: nat :: IsFirst(policy, i, Deny, os, req) && decision.sid == policy[i].sid
    ensures decision.Granted? ==> exists i: nat :: IsFirst(policy, i, Allow, os, req) && decision.sid == policy[i].sid
  {
    var allowSid: Option<Option<string>> := None;
    ghost var first := 0;
    for i := 0 to |policy|
      invariant !Invoked(policy[..i], Deny, os, req)
      invariant allowSid.Some? <==> Invoked(policy[..i], Allow, os, req)
      invariant allowSid.Some? ==> IsFirst(policy, first, Allow, os, req) && allowSid.value == policy[first].sid
    {
      Extend(policy, i, Deny, os, req);
      Extend(policy, i, Allow, os, req);
      if policy[i].Applies(os, req) {
        match policy[i].effect {
          case Deny =>
            assert IsFirst(policy, i, Deny, os, req);
            return ExplicitDeny(policy[i].sid);
          case Allow =>
            if allowSid.None? {
              first := i;
              allowSid := Some(policy[i].sid);
            }
        }
      }
    }
    assert policy[..|policy|] == policy;
    decision := if allowSid.Some? then Granted(allowSid.value) else ImplicitDeny;
  }

  /** The policy grants a request exactly when a statement that allows speaks of it and none that denies does. */
  lemma GrantsAsDocumented(policy: seq<Statement>, os: Platform, req: Request)
    requires StarFree(os, req)
    ensures Grants(policy, os, req) <==>
            && (exists i :: 0 <= i < |policy| && policy[i].effect == Allow && SpeaksOf(os, policy[i], req))
            && (forall i :: 0 <= i < |policy| && SpeaksOf(os, policy[i], req) ==> policy[i].effect == Allow)
  {
    hide SpeaksOf, StarFree;
    forall i | 0 <= i < |policy| ensures policy[i].Applies(os, req) <==> SpeaksOf(os, policy[i], req) {
      AppliesAsDocumented(os, policy[i], req);
    }
    assert forall i :: 0 <= i < |policy| ==> policy[i] in policy;
  }

  /** The verdict does not depend on the order of the statements. */
  lemma OrderIrrelevant(policy: seq<Statement>, other: seq<Statement>, os: Platform, req: Request)
    requires multiset(policy) == multiset(other)
    ensures Grants(policy, os, req) == Grants(other, os, req)
  {
    assert forall s :: s in policy <==> s in multiset(policy);
    assert forall s :: s in other <==> s in multiset(other);
  }

  /** What inserting a statement anywhere does: a Deny can only take away, an Allow can only
      add where nothing denies. */
  lemma InsertStatement(before: seq<Statement>, s: Statement, after: seq<Statement>, os: Platform, req: Request)
    ensures s.effect == Deny ==>
              (Grants(before + [s] + after, os, req) <==> Grants(before + after, os, req) && !s.Applies(os, req))
    ensures s.effect == Allow ==>
              (Grants(before + [s] + after, os, req) <==>
               Grants(before + after, os, req) || (s.Applies(os, req) && !Invoked(before + after, Deny, os, req)))
  {
    assert forall x :: x in before + [s] + after <==> x in before + after || x == s;
  }
}
