/** The policy decision point of `crates/authz` and the narrowing of a principal to the scopes
    of an API key.

    The role templates are finite data and stay a parameter (`defaults`), as does the parser
    of clock times (`clock`, seconds since midnight). */
module Authz {
  import opened Common

  type Permission = string

  datatype Scope = Own | Team | Department | Organization {
    predicate Covers(required: Scope) {
      match this
      case Organization => true
      case Department => required == Department || required == Team || required == Own
      case Team => required == Team || required == Own
      case Own => required == Own
    }
  }

  datatype Role = Owner | Admin | Finance | Sales | Manager | Member | ReadOnly

  type Defaults = Role -> set<Permission>
  type Clock = string -> Option<nat>

  // ------------------------------------------------------------- conditions

  /** Monday is 1; seconds since midnight, fractions dropped. */
  datatype Instant = Instant(weekday: nat, second: nat)

  datatype Context = Context(
    now: Option<Instant>, location: Option<string>, delegationId: Option<string>, recordState: Option<string>)

  const DEFAULT_CONTEXT := Context(None, None, None, None)

  datatype Condition =
    | TimeWindow(start: string, end: string, weekdays: seq<nat>)
    | Location(allow: seq<string>)
    | Delegation(required: bool, allowedIds: seq<string>)
    | RecordState(allowStates: seq<string>, denyStates: seq<string>)

  predicate MatchTimeWindow(clock: Clock, now: Option<Instant>, start: string, end: string, weekdays: seq<nat>) {
    && now.Some? && clock(start).Some? && clock(end).Some?
    && (weekdays != [] ==> now.value.weekday in weekdays)
    && var t, s, e := now.value.second, clock(start).value, clock(end).value;
       if s <= e then s <= t < e else t >= s || t < e
  }

  predicate MatchLocation(location: Option<string>, allow: seq<string>) {
    allow == [] || (location.Some? && exists a <- allow :: location.value == a || a <= location.value)
  }

  predicate MatchDelegation(id: Option<string>, required: bool, allowedIds: seq<string>) {
    match id
    case None => !required && allowedIds == []
    case Some(d) => allowedIds == [] || d in allowedIds
  }

  predicate MatchRecordState(state: Option<string>, allow: seq<string>, deny: seq<string>) {
    state.Some? && state.value !in deny && (allow == [] || state.value in allow)
  }

  predicate Matches(clock: Clock, c: Condition, ctx: Context) {
    match c
    case TimeWindow(start, end, weekdays) => MatchTimeWindow(clock, ctx.now, start, end, weekdays)
    case Location(allow) => MatchLocation(ctx.location, allow)
    case Delegation(required, ids) => MatchDelegation(ctx.delegationId, required, ids)
    case RecordState(allow, deny) => MatchRecordState(ctx.recordState, allow, deny)
  }

  predicate ConditionsMatch(clock: Clock, conditions: seq<Condition>, ctx: Context) {
    forall c <- conditions :: Matches(clock, c, ctx)
  }

  // --------------------------------------------------------------- decision

  datatype Effect = Allow | Deny

  datatype Statement = Statement(effect: Effect, permission: Permission, scope: Scope, conditions: seq<Condition>)

  datatype Principal = Principal(roles: seq<Role>, statements: seq<Statement>)

  datatype Reason = ExplicitDeny | ExplicitAllow | AbacDeny | RoleAllow | DefaultDeny {
    predicate Allows() {
      ExplicitAllow? || RoleAllow?
    }
  }

  /** An allow for p whose scope suffices, whatever its conditions. */
  predicate Covering(s: Statement, p: Permission, required: Scope) {
    s.effect == Allow && s.permission == p && s.scope.Covers(required)
  }

  /** `decide_with_context`; the decision is `Allows` of the reason. */
  function Decide(defaults: Defaults, clock: Clock, principal: Principal, p: Permission, required: Scope,
                  ctx: Context): Reason {
    if exists s <- principal.statements :: s.effect == Deny && s.permission == p then
      ExplicitDeny
    else if exists s <- principal.statements ::
              Covering(s, p, required) && ConditionsMatch(clock, s.conditions, ctx) then
      ExplicitAllow
    else if exists s <- principal.statements ::
              Covering(s, p, required) && s.conditions != [] && !ConditionsMatch(clock, s.conditions, ctx) then
      AbacDeny
    else if (required == Organization || Organization.Covers(required))
            && exists r <- principal.roles :: p in defaults(r) then
      RoleAllow
    else
      DefaultDeny
  }

  predicate Allowed(defaults: Defaults, clock: Clock, principal: Principal, p: Permission, required: Scope,
                    ctx: Context) {
    Decide(defaults, clock, principal, p, required, ctx).Allows()
  }

  function FromPermissionIds(ids: seq<Permission>): Principal {
    Principal([], seq(|ids|, i requires 0 <= i < |ids| => Statement(Allow, ids[i], Organization, [])))
  }

  /** The scopes the principal allows organization-wide in the default context. The code
      collects them in a hash set; order and repetitions do not matter (OrderIrrelevant). */
  function KeepAllowed(defaults: Defaults, clock: Clock, principal: Principal,
                       scopes: seq<Permission>): seq<Permission> {
    if scopes == [] then []
    else
      (if Allowed(defaults, clock, principal, scopes[0], Organization, DEFAULT_CONTEXT) then [scopes[0]] else [])
      + KeepAllowed(defaults, clock, principal, scopes[1..])
  }

  function IntersectScopes(defaults: Defaults, clock: Clock, principal: Principal, scopes: seq<Permission>): Principal {
    FromPermissionIds(KeepAllowed(defaults, clock, principal, scopes))
  }

  // ------------------------------------------------------------- properties

  ghost predicate Denied(principal: Principal, p: Permission) {
    exists s <- principal.statements :: s.effect == Deny && s.permission == p
  }

  ghost predicate Granted(clock: Clock, principal: Principal, p: Permission, required: Scope, ctx: Context) {
    exists s <- principal.statements :: Covering(s, p, required) && ConditionsMatch(clock, s.conditions, ctx)
  }

  ghost predicate Covered(principal: Principal, p: Permission, required: Scope) {
    exists s <- principal.statements :: Covering(s, p, required)
  }

  ghost predicate RoleGrants(defaults: Defaults, principal: Principal, p: Permission) {
    exists r <- principal.roles :: p in defaults(r)
  }

  /** The five-way precedence comes down to this: no deny, and either a satisfied allow, or a
      role and no covering allow at all. A covering allow whose conditions fail therefore
      takes away what a role grants. */
  lemma {:induction false} DecisionMeaning(
      defaults: Defaults, clock: Clock, principal: Principal, p: Permission, required: Scope, ctx: Context)
    ensures Allowed(defaults, clock, principal, p, required, ctx) <==>
              && !Denied(principal, p)
              && (|| Granted(clock, principal, p, required, ctx)
                  || (RoleGrants(defaults, principal, p) && !Covered(principal, p, required)))
    ensures match Decide(defaults, clock, principal, p, required, ctx)
            case ExplicitDeny => Denied(principal, p)
            case ExplicitAllow => Granted(clock, principal, p, required, ctx)
            case AbacDeny => Covered(principal, p, required) && !Granted(clock, principal, p, required, ctx)
            case RoleAllow => RoleGrants(defaults, principal, p) && !Covered(principal, p, required)
            case DefaultDeny => !RoleGrants(defaults, principal, p) && !Covered(principal, p, required)
  {
  }

  /** The place of a scope in the order. */
  function Rank(scope: Scope): nat {
    match scope
    case Own => 0
    case Team => 1
    case Department => 2
    case Organization => 3
  }

  /** Covering is the total order in which own lies below team, team below department and
      department below organization. */
  lemma {:induction false} ScopesOrdered(a: Scope, b: Scope, c: Scope)
    ensures a.Covers(b) <==> Rank(b) <= Rank(a)
    ensures a.Covers(a) && (a.Covers(b) || b.Covers(a))
    ensures a.Covers(b) && b.Covers(a) ==> a == b
    ensures a.Covers(b) && b.Covers(c) ==> a.Covers(c)
  {
  }

  /** A single unconditional allow grants its permission at exactly the scopes that are not above
      its own, and nothing else. */
  lemma {:induction false} SingleAllowGrants(
      defaults: Defaults, clock: Clock, p: Permission, scope: Scope, q: Permission, required: Scope, ctx: Context)
    ensures Decide(defaults, clock, Principal([], [Statement(Allow, p, scope, [])]), q, required, ctx)
            == if q == p && Rank(required) <= Rank(scope) then ExplicitAllow else DefaultDeny
  {
    var s := Statement(Allow, p, scope, []);
    ScopesOrdered(scope, required, required);
    assert s in [s] && (forall x <- [s] :: x == s);
    assert ConditionsMatch(clock, s.conditions, ctx);
  }

  // Which contexts a condition admits

  /** A location condition admits every location that continues an allowed one; an empty list
      admits everything, also an unknown location. */
  lemma {:induction false} LocationMeaning(clock: Clock, allow: seq<string>, ctx: Context)
    ensures Matches(clock, Location(allow), ctx) <==>
              || |allow| == 0
              || exists i: nat, rest: string :: i < |allow| && ctx.location == Some(allow[i] + rest)
  {
    if |allow| > 0 && Matches(clock, Location(allow), ctx) {
      var here := ctx.location.value;
      var a :| a in allow && (here == a || a <= here);
      var i: nat :| i < |allow| && allow[i] == a;
      assert here == allow[i] + here[|a|..];
    }
    if i: nat, rest: string :| i < |allow| && ctx.location == Some(allow[i] + rest) {
      assert allow[i] in allow && allow[i] <= ctx.location.value;
    }
  }

  /** A delegation condition refuses a missing delegation where one is required or ids are
      listed, and a delegation that is not listed. */
  lemma {:induction false} DelegationMeaning(clock: Clock, required: bool, ids: seq<string>, ctx: Context)
    ensures !Matches(clock, Delegation(required, ids), ctx) <==>
              || (required && ctx.delegationId.None?)
              || (|ids| > 0 && forall i :: 0 <= i < |ids| ==> ctx.delegationId != Some(ids[i]))
  {
    if |ids| > 0 {
      assert ids[0] in ids;
    }
  }

  /** A record-state condition refuses an unknown state, a denied one even if it is also allowed,
      and one that is not allowed where some are listed. */
  lemma {:induction false} RecordStateMeaning(clock: Clock, allow: seq<string>, deny: seq<string>, ctx: Context)
    ensures !Matches(clock, RecordState(allow, deny), ctx) <==>
              || ctx.recordState.None?
              || (exists i :: 0 <= i < |deny| && ctx.recordState == Some(deny[i]))
              || (|allow| > 0 && forall i :: 0 <= i < |allow| ==> ctx.recordState != Some(allow[i]))
  {
  }

  /** A time window refuses an unknown time and one whose ends cannot be read; all conditions
      of a statement must hold. */
  lemma {:induction false} ConditionsConjoin(clock: Clock, cs: seq<Condition>, c: Condition, ctx: Context)
    ensures ConditionsMatch(clock, [], ctx)
    ensures ConditionsMatch(clock, cs + [c], ctx) <==> ConditionsMatch(clock, cs, ctx) && Matches(clock, c, ctx)
    ensures c.TimeWindow? && (ctx.now.None? || clock(c.start).None? || clock(c.end).None?) ==> !Matches(clock, c, ctx)
  {
    assert (cs + [c])[|cs|] == c;
  }

  /** Only the set of statements counts, not their order or repetitions. */
  lemma {:induction false} OrderIrrelevant(
      defaults: Defaults, clock: Clock, a: Principal, b: Principal, p: Permission, required: Scope, ctx: Context)
    requires a.roles == b.roles && forall s :: s in a.statements <==> s in b.statements
    ensures Decide(defaults, clock, a, p, required, ctx) == Decide(defaults, clock, b, p, required, ctx)
  {
  }

  const DAY := 86_400

  /** A daily window, also one that crosses midnight, is an arc of the clock: an instant is in
      it exactly when it comes less far after the start than the end does. */
  lemma {:induction false} TimeWindowIsArc(
      clock: Clock, now: Instant, start: string, end: string, weekdays: seq<nat>, s: nat, e: nat)
    requires clock(start) == Some(s) && clock(end) == Some(e) && s < DAY && e < DAY && now.second < DAY
    ensures MatchTimeWindow(clock, Some(now), start, end, weekdays) <==>
              (weekdays == [] || now.weekday in weekdays) && (now.second - s) % DAY < (e - s) % DAY
  {
    CircleDistance(now.second, s);
    CircleDistance(e, s);
  }

  lemma {:induction false} CircleDistance(t: nat, s: nat)
    requires t < DAY && s < DAY
    ensures (t - s) % DAY == if t >= s then t - s else t - s + DAY
  {
  }

  /** A condition that the empty context meets constrains nothing. */
  lemma {:induction false} DefaultIsStrongest(clock: Clock, c: Condition, ctx: Context)
    requires Matches(clock, c, DEFAULT_CONTEXT)
    ensures Matches(clock, c, ctx)
  {
  }

  /** What is allowed in the default context is allowed in every context, at any scope. */
  lemma {:induction false} AllowedEverywhere(defaults: Defaults, clock: Clock, principal: Principal, p: Permission,
                                             required: Scope)
    ensures Allowed(defaults, clock, principal, p, required, DEFAULT_CONTEXT) <==>
              forall ctx :: Allowed(defaults, clock, principal, p, required, ctx)
  {
  }

  lemma {:induction false} KeptExactly(defaults: Defaults, clock: Clock, principal: Principal,
                                       scopes: seq<Permission>, p: Permission)
    ensures p in KeepAllowed(defaults, clock, principal, scopes) <==>
              p in scopes && Allowed(defaults, clock, principal, p, Organization, DEFAULT_CONTEXT)
  {
    if scopes != [] {
      KeptExactly(defaults, clock, principal, scopes[1..], p);
    }
  }

  lemma {:induction false} IdsAllowed(
      defaults: Defaults, clock: Clock, ids: seq<Permission>, p: Permission, required: Scope, ctx: Context)
    ensures Allowed(defaults, clock, FromPermissionIds(ids), p, required, ctx) <==> p in ids
  {
    var principal := FromPermissionIds(ids);
    DecisionMeaning(defaults, clock, principal, p, required, ctx);
    if p in ids {
      var i :| 0 <= i < |ids| && ids[i] == p;
      var s := principal.statements[i];
      assert s in principal.statements && Covering(s, p, required) && ConditionsMatch(clock, s.conditions, ctx);
    }
  }

  /** The narrowed principal allows p, at every scope and in every context, exactly when p is
      among the scopes and the principal allows it organization-wide by default. */
  lemma {:induction false} NarrowedAllows(
      defaults: Defaults, clock: Clock, principal: Principal, scopes: seq<Permission>, p: Permission, required: Scope,
      ctx: Context)
    ensures Allowed(defaults, clock, IntersectScopes(defaults, clock, principal, scopes), p, required, ctx) <==>
              p in scopes && Allowed(defaults, clock, principal, p, Organization, DEFAULT_CONTEXT)
  {
    IdsAllowed(defaults, clock, KeepAllowed(defaults, clock, principal, scopes), p, required, ctx);
    KeptExactly(defaults, clock, principal, scopes, p);
  }

  /** Organization-wide, a narrowed key never allows what its owner is not allowed, in any
      context. */
  lemma {:induction false} NarrowingSound(
      defaults: Defaults, clock: Clock, principal: Principal, scopes: seq<Permission>, p: Permission, ctx: Context)
    requires Allowed(defaults, clock, IntersectScopes(defaults, clock, principal, scopes), p, Organization, ctx)
    ensures forall c :: Allowed(defaults, clock, principal, p, Organization, c)
  {
    NarrowedAllows(defaults, clock, principal, scopes, p, Organization, ctx);
    AllowedEverywhere(defaults, clock, principal, p, Organization);
  }

  /** An allow for p that is too narrow for the organization, covers the scope at hand, and
      demands something of the context, with no covering allow that demands nothing. */
  ghost predicate Shadowed(clock: Clock, principal: Principal, p: Permission, required: Scope) {
    && (exists s <- principal.statements :: Covering(s, p, required) && s.scope != Organization)
    && !Granted(clock, principal, p, required, DEFAULT_CONTEXT)
  }

  /** At any scope, what the narrowed key allows is allowed to its owner in every context
      exactly when no such conditional allow shadows the owner's role. */
  lemma {:induction false} NarrowingSoundExactly(
      defaults: Defaults, clock: Clock, principal: Principal, scopes: seq<Permission>, p: Permission, required: Scope,
      ctx: Context)
    requires Allowed(defaults, clock, IntersectScopes(defaults, clock, principal, scopes), p, required, ctx)
    ensures (forall c :: Allowed(defaults, clock, principal, p, required, c))
            <==> !Shadowed(clock, principal, p, required)
  {
    NarrowedAllows(defaults, clock, principal, scopes, p, required, ctx);
    AllowedEverywhere(defaults, clock, principal, p, required);
    DecisionMeaning(defaults, clock, principal, p, Organization, DEFAULT_CONTEXT);
    DecisionMeaning(defaults, clock, principal, p, required, DEFAULT_CONTEXT);
    if Granted(clock, principal, p, Organization, DEFAULT_CONTEXT) {
      var s :| s in principal.statements && Covering(s, p, Organization)
               && ConditionsMatch(clock, s.conditions, DEFAULT_CONTEXT);
      assert Covering(s, p, required);
    } else if Covered(principal, p, required) {
      var s :| s in principal.statements && Covering(s, p, required);
      assert !Covering(s, p, Organization);
    }
  }

  /** Narrowing can widen: an owner by role with a conditional own-scope allow is denied at
      own scope, while the key narrowed from that owner is allowed. */
  lemma {:induction false} NarrowingCanWiden(defaults: Defaults, clock: Clock, p: Permission)
    requires p in defaults(Owner)
    ensures var owner := Principal([Owner], [Statement(Allow, p, Own, [RecordState([], [])])]);
            && !Allowed(defaults, clock, owner, p, Own, DEFAULT_CONTEXT)
            && Allowed(defaults, clock, IntersectScopes(defaults, clock, owner, [p]), p, Own, DEFAULT_CONTEXT)
  {
    var s := Statement(Allow, p, Own, [RecordState([], [])]);
    var owner := Principal([Owner], [s]);
    assert s in owner.statements && Covering(s, p, Own);
    assert !Matches(clock, s.conditions[0], DEFAULT_CONTEXT);
    assert Owner in owner.roles;
    DecisionMeaning(defaults, clock, owner, p, Own, DEFAULT_CONTEXT);
    DecisionMeaning(defaults, clock, owner, p, Organization, DEFAULT_CONTEXT);
    NarrowedAllows(defaults, clock, owner, [p], p, Own, DEFAULT_CONTEXT);
  }

  /** Narrowing twice is narrowing to what both lists name. */
  lemma {:induction false} NarrowingComposes(
      defaults: Defaults, clock: Clock, principal: Principal, a: seq<Permission>, b: seq<Permission>,
      both: seq<Permission>,
      p: Permission, required: Scope, ctx: Context)
    requires forall q :: q in both <==> q in a && q in b
    ensures var once := IntersectScopes(defaults, clock, principal, a);
            Allowed(defaults, clock, IntersectScopes(defaults, clock, once, b), p, required, ctx)
            <==> Allowed(defaults, clock, IntersectScopes(defaults, clock, principal, both), p, required, ctx)
  {
    var once := IntersectScopes(defaults, clock, principal, a);
    NarrowedAllows(defaults, clock, once, b, p, required, ctx);
    NarrowedAllows(defaults, clock, principal, a, p, Organization, DEFAULT_CONTEXT);
    NarrowedAllows(defaults, clock, principal, both, p, required, ctx);
  }

  /** Adding a deny never allows anything new; adding an unconditional organization allow
      never denies anything but what is explicitly denied already. */
  lemma {:induction false} StatementsMonotone(
      defaults: Defaults, clock: Clock, principal: Principal, extra: Statement, p: Permission, required: Scope,
      ctx: Context)
    ensures var more := principal.(statements := principal.statements + [extra]);
            && (extra.effect == Deny ==>
                  (Allowed(defaults, clock, more, p, required, ctx) <==>
                     Allowed(defaults, clock, principal, p, required, ctx) && p != extra.permission))
            && (extra.effect == Allow && extra.scope == Organization && extra.conditions == [] ==>
                  (Allowed(defaults, clock, more, p, required, ctx) <==>
                     || Allowed(defaults, clock, principal, p, required, ctx)
                     || (p == extra.permission && !Denied(principal, p))))
  {
  }
}
