/** Tenant-to-cell routing of `crates/tenancy/src/region.rs` and the gateway gate in front of
    it. Claims carry their region already parsed (None where the text is no region). */
module Region {
  import opened Common

  datatype RegionCode = Us | Eu | Ap

  datatype ReplicaKind = RoutingMetadata | Identity | DisasterRecovery

  datatype CellHealth = Healthy | Unhealthy | Unknown

  datatype CellId = UsPrimary | UsDr | EuPrimary | ApPrimary {
    function Region(): RegionCode {
      match this
      case UsPrimary => Us
      case UsDr => Us
      case EuPrimary => Eu
      case ApPrimary => Ap
    }
  }

  datatype RegionError =
    | OrgNotInDirectory
    | FailoverDenied
    | CellUnavailable(cell: CellId)
    | RegionMismatch

  /** The catalogue: only the US policy lists an in-region standby. */
  predicate AllowsReplica(region: RegionCode, kind: ReplicaKind) {
    kind.RoutingMetadata? || kind.Identity? || region.Us?
  }

  function PrimaryFor(region: RegionCode): CellId {
    match region
    case Us => UsPrimary
    case Eu => EuPrimary
    case Ap => ApPrimary
  }

  function StandbyFor(region: RegionCode): Option<CellId> {
    if region.Us? && AllowsReplica(region, DisasterRecovery) then Some(UsDr) else None
  }

  datatype Routing = Routing(org: string, home: RegionCode, cell: CellId, failover: bool)

  /** The control plane as a value. */
  datatype Plane = Plane(orgs: map<string, RegionCode>, health: map<CellId, CellHealth>) {
    function Health(cell: CellId): CellHealth {
      if cell in health then health[cell] else Unknown
    }

    function Resolve(org: string): Result<Routing, RegionError> {
      if org !in orgs then Err(OrgNotInDirectory)
      else
        var home := orgs[org];
        var primary := PrimaryFor(home);
        if Health(primary).Healthy? then Ok(Routing(org, home, primary, false))
        else if !AllowsReplica(home, DisasterRecovery) then Err(FailoverDenied)
        else match StandbyFor(home)
          case None => Err(FailoverDenied)
          case Some(standby) =>
            if !Health(standby).Healthy? then Err(CellUnavailable(primary))
            else Ok(Routing(org, home, standby, true))
    }

    /** `enforce_data_plane_access`, with its three checks in the order of the code. */
    function Enforce(org: string, cell: CellId): Result<Routing, RegionError> {
      match Resolve(org)
      case Err(e) => Err(e)
      case Ok(d) =>
        if d.cell != cell && d.cell.Region() != cell.Region() then Err(RegionMismatch)
        else if d.cell != cell then Err(RegionMismatch)
        else if d.home != cell.Region() then Err(RegionMismatch)
        else Ok(d)
    }
  }

  class ControlPlane {
    var orgs: map<string, RegionCode>
    var health: map<CellId, CellHealth>

    ghost function View(): Plane
      reads this
    {
      Plane(orgs, health)
    }

    constructor ()
      ensures View() ==
              Plane(map[], map[UsPrimary := Healthy, UsDr := Healthy, EuPrimary := Healthy, ApPrimary := Healthy])
    {
      orgs := map[];
      health := map[UsPrimary := Healthy, UsDr := Healthy, EuPrimary := Healthy, ApPrimary := Healthy];
    }

    method RegisterOrg(org: string, region: RegionCode)
      modifies this`orgs
      ensures View() == Apply(old(View()), Register(org, region))
    {
      orgs := orgs[org := region];
    }

    method SetCellHealth(cell: CellId, h: CellHealth)
      modifies this`health
      ensures View() == Apply(old(View()), SetHealth(cell, h))
    {
      health := health[cell := h];
    }

    /** `run_failover_drill` without its timing. */
    method RunFailoverDrill(org: string, failCell: CellId) returns (decision: Result<Routing, RegionError>)
      modifies this`health
      ensures View() == Apply(old(View()), SetHealth(failCell, Unhealthy))
      ensures decision == View().Resolve(org)
    {
      SetCellHealth(failCell, Unhealthy);
      decision := Plane(orgs, health).Resolve(org);
    }
  }

  datatype Op = Register(org: string, region: RegionCode) | SetHealth(cell: CellId, health: CellHealth)

  function Apply(p: Plane, op: Op): Plane {
    match op
    case Register(org, region) => p.(orgs := p.orgs[org := region])
    case SetHealth(cell, h) => p.(health := p.health[cell := h])
  }

  function Run(p: Plane, ops: seq<Op>): Plane
    decreases |ops|
  {
    if ops == [] then p else Run(Apply(p, ops[0]), ops[1..])
  }

  // ------------------------------------------------------------- properties

  /** A cell passes the data-plane check exactly when it is the resolved serving cell; the last
      check of the code never fails. */
  lemma {:induction false} EnforceExactly(p: Plane, org: string, cell: CellId)
    ensures p.Enforce(org, cell).Ok? <==> p.Resolve(org).Ok? && p.Resolve(org).value.cell == cell
    ensures p.Enforce(org, cell).Ok? ==> p.Enforce(org, cell) == p.Resolve(org)
  {
  }

  /** When which cell serves, and which error says that none does. */
  lemma {:induction false} ResolveExactly(p: Plane, org: string, cell: CellId)
    requires org in p.orgs
    ensures (p.Resolve(org).Ok? && p.Resolve(org).value.cell == cell) <==>
              || (cell == PrimaryFor(p.orgs[org]) && p.Health(cell).Healthy?)
              || (cell == UsDr && p.orgs[org].Us? && !p.Health(UsPrimary).Healthy? && p.Health(UsDr).Healthy?)
    ensures p.Resolve(org) == Err(FailoverDenied) <==>
              !p.orgs[org].Us? && !p.Health(PrimaryFor(p.orgs[org])).Healthy?
    ensures p.Resolve(org) == Err(CellUnavailable(UsPrimary)) <==>
              p.orgs[org].Us? && !p.Health(UsPrimary).Healthy? && !p.Health(UsDr).Healthy?
  {
  }

  /** Which routing decision and which error the checks return, and the policies behind them. */
  lemma {:induction false} OutcomesExactly(p: Plane, org: string, cell: CellId)
    ensures p.Resolve(org) == Err(OrgNotInDirectory) <==> org !in p.orgs
    ensures p.Resolve(org).Ok? ==>
              var d := p.Resolve(org).value; d.org == org && d.home == p.orgs[org] && (d.failover <==> d.cell == UsDr)
    ensures p.Resolve(org).Err? ==> p.Enforce(org, cell) == p.Resolve(org)
    ensures p.Resolve(org).Ok? && p.Resolve(org).value.cell != cell ==> p.Enforce(org, cell) == Err(RegionMismatch)
    ensures cell !in p.health ==> p.Enforce(org, cell).Err?
  {
  }

  lemma {:induction false} ReplicaPolicies(region: RegionCode, kind: ReplicaKind)
    ensures AllowsReplica(region, kind) <==> (kind == DisasterRecovery ==> region == Us)
    ensures StandbyFor(region).Some? <==> AllowsReplica(region, DisasterRecovery)
    ensures StandbyFor(region).Some? ==>
              StandbyFor(region).value.Region() == region && StandbyFor(region).value != PrimaryFor(region)
    ensures PrimaryFor(region).Region() == region
  {
  }

  /** In every plane at most one cell serves an organization, it lies in the home region, and
      only a US organization is ever served by anything but its primary. */
  lemma {:induction false} ExclusiveAndResident(p: Plane, org: string, a: CellId, b: CellId)
    requires p.Enforce(org, a).Ok? && p.Enforce(org, b).Ok?
    ensures a == b && org in p.orgs && a.Region() == p.orgs[org]
    ensures !p.orgs[org].Us? ==> a == PrimaryFor(p.orgs[org])
    ensures p.Health(a).Healthy?
  {
  }

  /** 0 for the primary, 1 for the standby, 2 for nobody. */
  function Stage(p: Plane, org: string): nat {
    match p.Resolve(org)
    case Ok(d) => if d.failover then 1 else 0
    case Err(_) => 2
  }

  ghost predicate OnlyFailures(ops: seq<Op>) {
    forall i :: 0 <= i < |ops| ==> ops[i].SetHealth? && !ops[i].health.Healthy?
  }

  lemma {:induction false} FailureStage(p: Plane, op: Op, org: string)
    requires op.SetHealth? && !op.health.Healthy? && org in p.orgs
    ensures Stage(p, org) <= Stage(Apply(p, op), org)
    ensures Apply(p, op).orgs == p.orgs
  {
  }

  /** Any number of drills without recovery moves an organization only from its primary to its
      standby to nobody, never back and never elsewhere. */
  lemma {:induction false} DrillsOnlyDegrade(p: Plane, ops: seq<Op>, org: string)
    requires OnlyFailures(ops) && org in p.orgs
    ensures Stage(p, org) <= Stage(Run(p, ops), org)
    ensures Run(p, ops).orgs == p.orgs
    ensures Run(p, ops).Resolve(org).Ok? ==>
              Run(p, ops).Resolve(org).value.cell in {PrimaryFor(p.orgs[org]), UsDr}
    decreases |ops|
  {
    if ops != [] {
      FailureStage(p, ops[0], org);
      DrillsOnlyDegrade(Apply(p, ops[0]), ops[1..], org);
    }
  }

  /** Registrations of the organization all name the same region. */
  ghost predicate HomeFixed(ops: seq<Op>, org: string, home: RegionCode) {
    forall i :: 0 <= i < |ops| && ops[i].Register? && ops[i].org == org ==> ops[i].region == home
  }

  /** Over any history in which an organization's region does not change, whatever happens to
      cells and other organizations, only cells of that region ever serve it. */
  lemma {:induction false} ResidencyOverRuns(p: Plane, ops: seq<Op>, org: string, home: RegionCode, cell: CellId)
    requires HomeFixed(ops, org, home) && (org in p.orgs ==> p.orgs[org] == home)
    requires Run(p, ops).Enforce(org, cell).Ok?
    ensures cell.Region() == home
    ensures !home.Us? ==> cell == PrimaryFor(home)
    decreases |ops|
  {
    if ops != [] {
      ResidencyOverRuns(Apply(p, ops[0]), ops[1..], org, home, cell);
    }
  }

  // -------------------------------------------------------------------- gate

  datatype Claims = Claims(org: string, region: Option<RegionCode>)

  datatype Path = Path(control: bool, data: bool)

  /** `gate_data_plane` */
  predicate Gate(binding: CellId, p: Plane, claims: Claims, path: Path) {
    || path.control || !path.data
    || (&& claims.region.Some?
        && if claims.org in p.orgs then p.Enforce(claims.org, binding).Ok?
           else claims.region.value == binding.Region())
  }

  /** Control-plane paths, and paths that are no data-plane paths, are never gated; a data-plane
      path without a region claim never passes. */
  lemma {:induction false} GateScope(binding: CellId, p: Plane, claims: Claims, path: Path)
    ensures path.control || !path.data ==> Gate(binding, p, claims, path)
    ensures !path.control && path.data && claims.region.None? ==> !Gate(binding, p, claims, path)
    ensures !path.control && path.data && claims.region.Some? && claims.org !in p.orgs ==>
              (Gate(binding, p, claims, path) <==> claims.region.value == binding.Region())
  {
  }

  /** On data-plane paths, a directory that agrees with the claim admits only the claimed
      region; a directory hit admits only the one serving cell. */
  lemma {:induction false} GateAdmits(binding: CellId, p: Plane, claims: Claims, path: Path)
    requires path.data && !path.control && Gate(binding, p, claims, path)
    requires claims.org in p.orgs ==> claims.region == Some(p.orgs[claims.org])
    ensures claims.region == Some(binding.Region())
    ensures claims.org in p.orgs ==>
              forall other: CellId :: Gate(other, p, claims, path) <==> other == binding
  {
  }

  /** A gateway registers the claimed home in its own plane before it gates. Two cells' gateways,
      each with its plane, admit only cells of the claimed region, and both admit one and the same
      cell exactly when that region has no standby or their planes agree on its primary. */
  lemma {:induction false} HydratedGateExclusive(a: CellId, p: Plane, b: CellId, q: Plane, claims: Claims, path: Path)
    requires path.data && !path.control && claims.region.Some?
    requires Gate(a, Apply(p, Register(claims.org, claims.region.value)), claims, path)
    requires Gate(b, Apply(q, Register(claims.org, claims.region.value)), claims, path)
    ensures a.Region() == b.Region() == claims.region.value
    ensures var primary, standby := PrimaryFor(claims.region.value), StandbyFor(claims.region.value);
            a == b <==> standby.None? || (p.Health(primary).Healthy? <==> q.Health(primary).Healthy?)
  {
    var register := Register(claims.org, claims.region.value);
    assert Apply(p, register).Health(a) == p.Health(a) && Apply(q, register).Health(b) == q.Health(b);
  }

  /** Without a directory entry both US cells pass, healthy or not. */
  lemma {:induction false} DirectoryMissNotExclusive(p: Plane, org: string)
    requires org !in p.orgs
    ensures var claims, path := Claims(org, Some(Us)), Path(false, true);
            Gate(UsPrimary, p, claims, path) && Gate(UsDr, p, claims, path)
  {
  }
}
