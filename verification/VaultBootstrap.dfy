/**
  The Vault bootstrap as a program that may stop before any of its external writes and is
  then run again from the start.
 */
module VaultBootstrap {
  import opened Options

  /** The three workload identities, each with a policy and a role of its own name. */
  datatype Identity = CsvProcessor | Dbt | Airflow

  datatype Role = Role(accounts: seq<string>, namespaces: seq<string>, policies: seq<string>)

  /** The policy texts the script holds, whatever they are. */
  type Policies = Identity -> string

  function RoleTarget(i: Identity): Role {
    match i
    case CsvProcessor => Role(["csv-processor"], ["etl"], ["csv-processor"])
    case Dbt => Role(["dbt"], ["etl"], ["dbt"])
    case Airflow =>
      Role(["airflow-api-server", "airflow-triggerer", "airflow-worker", "airflow-scheduler"], ["airflow"], ["airflow"])
  }

  /** The KV mounts the script wants. */
  datatype Engine = Etl | AirflowKv | Grafana

  datatype Path =
    | EtlAnalytics | EtlMinio | EtlDbt
    | AirflowMinio | AirflowAnalytics
    | GrafanaAnalytics | GrafanaWebhook

  datatype DbRole = EtlApp | DbtApp | GrafanaReader

  /** The secrets that carry a database password. */
  predicate HoldsPassword(p: Path) {
    p == EtlAnalytics || p == EtlDbt || p == GrafanaAnalytics
  }

  function RoleOf(p: Path): DbRole
    requires HoldsPassword(p)
  {
    match p
    case EtlAnalytics => EtlApp
    case EtlDbt => DbtApp
    case GrafanaAnalytics => GrafanaReader
  }

  /** The ETL secret is a DSN around the password; the other two hold it as a field. */
  function Stored(p: Path, password: string): string
    requires HoldsPassword(p)
  {
    if p == EtlAnalytics then "postgresql://etl_app:" + password + "@analytics-db-rw.data:5432/analytics" else password
  }

  /** Vault, the database roles and the one Kubernetes Secret the script applies. Each KV
      secret is represented by its credential field. */
  datatype State = State(
    mounts: set<Engine>,
    authEnabled: bool,
    authConfigured: bool,
    policies: map<Identity, string>,
    roles: map<Identity, Role>,
    audit: bool,
    kv: map<Path, string>,
    passwords: map<DbRole, string>,
    applied: Option<(string, string)>)

  datatype Write =
    | Mount(engine: Engine) | EnableAuth | ConfigureAuth | PutPolicy(i: Identity) | PutRole(i: Identity)
    | EnableAudit | SetPassword(role: DbRole) | PutSecret(path: Path) | ApplySecret

  // ----- invariants ------------------------------------------------------------

  /** A database password in Vault is the role's password, the Airflow connection is the ETL
      DSN, and the applied Secret holds Vault's values. */
  ghost predicate Inv(s: State) {
    && (forall p :: p in s.kv && HoldsPassword(p) ==>
          RoleOf(p) in s.passwords && s.kv[p] == Stored(p, s.passwords[RoleOf(p)]))
    && (AirflowAnalytics in s.kv ==> EtlAnalytics in s.kv && s.kv[AirflowAnalytics] == s.kv[EtlAnalytics])
    && (s.applied.Some? ==>
          GrafanaAnalytics in s.kv && GrafanaWebhook in s.kv
          && s.applied.value == (s.kv[GrafanaAnalytics], s.kv[GrafanaWebhook]))
    && (s.authConfigured ==> s.authEnabled)
  }

  predicate IsSpace(c: char) {
    c == ' ' || c == '\n' || c == '\t' || c == '\r'
  }

  function StripLeft(text: string): string {
    if text != [] && IsSpace(text[0]) then StripLeft(text[1..]) else text
  }

  function Strip(text: string): string {
    var left := StripLeft(text);
    StripRight(left)
  }

  function StripRight(text: string): string {
    if text != [] && IsSpace(text[|text| - 1]) then StripRight(text[..|text| - 1]) else text
  }

  /** What a step of the script aims at, as that step itself checks it. */
  datatype Goal =
    | Mounted(engine: Engine) | AuthPresent | PolicyCurrent(i: Identity) | RoleCurrent(i: Identity)
    | AuditPresent | SecretPresent(path: Path)

  predicate SameAccounts(a: Role, b: Role) {
    multiset(a.accounts) == multiset(b.accounts)
  }

  predicate Met(hcl: Policies, s: State, g: Goal) {
    match g
    case Mounted(engine) => engine in s.mounts
    case AuthPresent => s.authEnabled
    case PolicyCurrent(i) => i in s.policies && Strip(s.policies[i]) == Strip(hcl(i))
    case RoleCurrent(i) => i in s.roles && SameAccounts(s.roles[i], RoleTarget(i))
    case AuditPresent => s.audit
    case SecretPresent(p) => p in s.kv
  }

  predicate AllMet(hcl: Policies, s: State, goals: set<Goal>) {
    forall g :: g in goals ==> Met(hcl, s, g)
  }

  const ENGINES: seq<Engine> := [Etl, AirflowKv, Grafana]

  function MountGoalsTo(n: nat): (goals: set<Goal>)
    requires n <= |ENGINES|
    ensures goals <= {Mounted(Etl), Mounted(AirflowKv), Mounted(Grafana)}
  {
    if n == 0 then {} else MountGoalsTo(n - 1) + {Mounted(ENGINES[n - 1])}
  }

  function MountGoals(): (goals: set<Goal>)
    ensures goals == {Mounted(Etl), Mounted(AirflowKv), Mounted(Grafana)}
  {
    MountGoalsTo(3)
  }

  function IdentityGoals(i: Identity): set<Goal> {
    {PolicyCurrent(i), RoleCurrent(i)}
  }

  function BaseGoals(): set<Goal> {
    MountGoals() + {AuthPresent}
  }

  /** The identities, the dbt secret and the audit device. */
  function IdentitiesGoals(): set<Goal> {
    IdentityGoals(CsvProcessor) + IdentityGoals(Dbt) + {SecretPresent(EtlDbt)} + IdentityGoals(Airflow) + {AuditPresent}
  }

  function SecretsGoals(p: Path, p': Path): set<Goal> {
    {SecretPresent(p)} + {SecretPresent(p')}
  }

  /** The secrets of the ETL, Airflow and Grafana steps. */
  function SecretGoals(): set<Goal> {
    SecretsGoals(EtlAnalytics, EtlMinio) + SecretsGoals(AirflowMinio, AirflowAnalytics)
    + SecretsGoals(GrafanaAnalytics, GrafanaWebhook)
  }

  function AllGoals(): set<Goal> {
    BaseGoals() + IdentitiesGoals() + SecretGoals()
  }

  /** What any part of any run keeps. */
  ghost predicate Progress(hcl: Policies, a: State, b: State) {
    && (Inv(a) ==> Inv(b))
    && (forall g :: Met(hcl, a, g) ==> Met(hcl, b, g))
    && (forall p :: p in a.kv ==> p in b.kv && b.kv[p] == a.kv[p])
    && (forall p :: p in a.kv && HoldsPassword(p) && RoleOf(p) in a.passwords ==>
          RoleOf(p) in b.passwords && b.passwords[RoleOf(p)] == a.passwords[RoleOf(p)])
    && (a.authEnabled ==> b.authConfigured == a.authConfigured)
    && (forall i :: i in b.roles ==> RoleStep(hcl, a, b.roles[i], i))
  }

  /** A role is left as it is while its account names are current, and replaced otherwise. */
  predicate RoleStep(hcl: Policies, a: State, after: Role, i: Identity) {
    || (i in a.roles && after == a.roles[i])
    || (after == RoleTarget(i) && !Met(hcl, a, RoleCurrent(i)))
  }

  predicate Right(r: Role, i: Identity) {
    SameAccounts(r, RoleTarget(i)) && r.namespaces == RoleTarget(i).namespaces && r.policies == RoleTarget(i).policies
  }

  /** The account names are as wanted, and something else is not. */
  predicate Drifted(s: State, i: Identity) {
    i in s.roles && SameAccounts(s.roles[i], RoleTarget(i)) && !Right(s.roles[i], i)
  }

  lemma ProgressIsTransitive(hcl: Policies, a: State, b: State, c: State)
    requires Progress(hcl, a, b) && Progress(hcl, b, c)
    ensures Progress(hcl, a, c)
  {
    forall i | i in c.roles ensures RoleStep(hcl, a, c.roles[i], i) {
      assert RoleStep(hcl, b, c.roles[i], i);
      if i in b.roles {
        assert RoleStep(hcl, a, b.roles[i], i);
      }
    }
    assert Met(hcl, a, AuthPresent) ==> Met(hcl, b, AuthPresent);
  }

  /** The contract of a step: what every part of a run keeps, its goals when it ends, and no
      write when they were met before. */
  ghost predicate Step(hcl: Policies, a: State, b: State, ok: bool, goals: set<Goal>, quiet: bool) {
    && Progress(hcl, a, b)
    && (ok ==> AllMet(hcl, b, goals))
    && (AllMet(hcl, a, goals) ==> ok && b == a && quiet)
  }

  lemma Then(hcl: Policies, a: State, b: State, c: State, ok: bool, first: set<Goal>, second: set<Goal>,
             before: seq<Write>, between: seq<Write>, after: seq<Write>)
    requires Step(hcl, a, b, true, first, between == before) && Step(hcl, b, c, ok, second, after == between)
    ensures Step(hcl, a, c, ok, first + second, after == before)
  {
    ProgressIsTransitive(hcl, a, b, c);
    if AllMet(hcl, a, first + second) {
      assert AllMet(hcl, a, first);
      assert AllMet(hcl, b, second);
    }
    if ok {
      forall g | g in first + second ensures Met(hcl, c, g) {
        assert g in first ==> Met(hcl, b, g);
      }
    }
  }

  /** A goal that is met already. */
  lemma NothingToDo(hcl: Policies, s: State, g: Goal)
    requires Met(hcl, s, g)
    ensures Step(hcl, s, s, true, {g}, true)
  {
    ProgressIsReflexive(hcl, s);
  }

  /** A goal that one state change meets, whether or not the process gets there. */
  lemma OneChange(hcl: Policies, s: State, t: State, g: Goal)
    requires !Met(hcl, s, g) && Progress(hcl, s, t) && Met(hcl, t, g)
    ensures Step(hcl, s, t, true, {g}, false) && Step(hcl, s, s, false, {g}, true)
  {
    ProgressIsReflexive(hcl, s);
    assert g in {g};
  }

  lemma Stopped(hcl: Policies, a: State, b: State, first: set<Goal>, goals: set<Goal>, q: bool)
    requires Step(hcl, a, b, false, first, q) && first <= goals
    ensures Step(hcl, a, b, false, goals, q)
  {
    if AllMet(hcl, a, goals) {
      assert AllMet(hcl, a, first);
    }
  }

  predicate Converged(hcl: Policies, s: State) {
    AllMet(hcl, s, AllGoals())
  }

  predicate GrafanaIsApplied(s: State) {
    && GrafanaAnalytics in s.kv && GrafanaWebhook in s.kv
    && s.applied == Some((s.kv[GrafanaAnalytics], s.kv[GrafanaWebhook]))
  }

  lemma Applying(hcl: Policies, s: State)
    requires GrafanaAnalytics in s.kv && GrafanaWebhook in s.kv
    ensures var after := s.(applied := Some((s.kv[GrafanaAnalytics], s.kv[GrafanaWebhook])));
      && Progress(hcl, s, after) && (Converged(hcl, s) ==> Converged(hcl, after))
  {
  }

  lemma Mounting(hcl: Policies, s: State, engine: Engine)
    ensures Progress(hcl, s, s.(mounts := s.mounts + {engine}))
  {
  }

  lemma EnablingAuth(hcl: Policies, s: State)
    requires !s.authEnabled
    ensures Progress(hcl, s, s.(authEnabled := true))
  {
  }

  lemma ConfiguringAuth(hcl: Policies, s: State)
    requires !s.authEnabled
    ensures Progress(hcl, s, s.(authEnabled := true).(authConfigured := true))
  {
  }

  lemma EnablingAudit(hcl: Policies, s: State)
    ensures Progress(hcl, s, s.(audit := true))
  {
  }

  lemma ProgressIsReflexive(hcl: Policies, s: State)
    ensures Progress(hcl, s, s)
  {
  }

  lemma PuttingAPolicy(hcl: Policies, s: State, i: Identity)
    ensures Progress(hcl, s, s.(policies := s.policies[i := hcl(i)]))
  {
  }

  lemma PuttingARole(hcl: Policies, s: State, i: Identity)
    requires !Met(hcl, s, RoleCurrent(i))
    ensures Progress(hcl, s, s.(roles := s.roles[i := RoleTarget(i)]))
  {
  }

  lemma SettingAPassword(hcl: Policies, s: State, p: Path, password: string)
    requires HoldsPassword(p) && p !in s.kv
    ensures Progress(hcl, s, s.(passwords := s.passwords[RoleOf(p) := password]))
  {
  }

  /** The password and then the secret: the old password is lost in between, which nothing
      in Vault refers to. */
  lemma ReplacingAPassword(hcl: Policies, s: State, p: Path, password: string)
    requires HoldsPassword(p) && p !in s.kv
    ensures var t := s.(passwords := s.passwords[RoleOf(p) := password]);
      Progress(hcl, s, t) && Progress(hcl, s, t.(kv := t.kv[p := Stored(p, password)]))
  {
    var t := s.(passwords := s.passwords[RoleOf(p) := password]);
    SettingAPassword(hcl, s, p, password);
    PuttingASecret(hcl, t, p, Stored(p, password));
    ProgressIsTransitive(hcl, s, t, t.(kv := t.kv[p := Stored(p, password)]));
  }

  lemma PuttingASecret(hcl: Policies, s: State, p: Path, value: string)
    requires p !in s.kv
    requires HoldsPassword(p) ==> RoleOf(p) in s.passwords && value == Stored(p, s.passwords[RoleOf(p)])
    requires p == AirflowAnalytics ==> EtlAnalytics in s.kv && value == s.kv[EtlAnalytics]
    ensures Progress(hcl, s, s.(kv := s.kv[p := value]))
  {
  }

  // ----- which values are stored -----------------------------------------------------

  /** A secret that was there is as it was; one that was not is absent still, or this value. */
  predicate KeptOr(a: State, b: State, p: Path, value: Option<string>) {
    if p in a.kv then p in b.kv && b.kv[p] == a.kv[p] else p in b.kv ==> value == Some(b.kv[p])
  }

  /** The three secrets that come from outside. */
  predicate CopiesKept(a: State, b: State, minioKey: string, minioUri: string, webhook: Option<string>) {
    KeptOr(a, b, EtlMinio, Some(minioKey)) && KeptOr(a, b, AirflowMinio, Some(minioUri)) && KeptOr(a, b, GrafanaWebhook, webhook)
  }

  /** Each secret that was absent now holds its own input. */
  predicate CopiesAreRight(a: State, b: State, minioKey: string, minioUri: string, webhook: Option<string>) {
    && EtlMinio in b.kv && AirflowMinio in b.kv && GrafanaWebhook in b.kv
    && (EtlMinio !in a.kv ==> b.kv[EtlMinio] == minioKey)
    && (AirflowMinio !in a.kv ==> b.kv[AirflowMinio] == minioUri)
    && (GrafanaWebhook !in a.kv ==> webhook == Some(b.kv[GrafanaWebhook]))
  }

  /** Each database secret holds the password of its own role. */
  predicate DatabaseSecretsAreRight(s: State) {
    && EtlApp in s.passwords && DbtApp in s.passwords && GrafanaReader in s.passwords
    && EtlAnalytics in s.kv && AirflowAnalytics in s.kv && EtlDbt in s.kv && GrafanaAnalytics in s.kv
    && s.kv[EtlAnalytics] == "postgresql://etl_app:" + s.passwords[EtlApp] + "@analytics-db-rw.data:5432/analytics"
    && s.kv[AirflowAnalytics] == s.kv[EtlAnalytics]
    && s.kv[EtlDbt] == s.passwords[DbtApp]
    && s.kv[GrafanaAnalytics] == s.passwords[GrafanaReader]
  }

  /** No other secret changes. */
  predicate SameBut(a: State, b: State, p: Path, p': Path) {
    forall q :: q != p && q != p' ==> (q in a.kv <==> q in b.kv) && (q in a.kv ==> b.kv[q] == a.kv[q])
  }

  // ----- the script -----------------------------------------------------------------

  class Cluster {
    const hcl: Policies
    var state: State
    /** External writes the running process will still survive. */
    var budget: nat
    var log: seq<Write>

    constructor (hcl: Policies, state: State, budget: nat)
      ensures this.hcl == hcl && this.state == state && this.budget == budget && log == []
    {
      this.hcl, this.state, this.budget, log := hcl, state, budget, [];
    }

    /** One external write; false is the process stopping before it. */
    method Perform(w: Write, next: State) returns (ok: bool)
      modifies this
      ensures ok <==> old(budget) > 0
      ensures ok ==> state == next && log == old(log) + [w] && budget == old(budget) - 1
      ensures !ok ==> state == old(state) && log == old(log) && budget == 0
    {
      if budget == 0 {
        return false;
      }
      budget, state, log := budget - 1, next, log + [w];
      ok := true;
    }

    /** One turn of the mount loop; `existing` is the listing taken before it. */
    method EnsureMount(existing: set<Engine>, engine: Engine) returns (ok: bool)
      requires engine in existing <==> engine in state.mounts
      modifies this
      ensures Step(hcl, old(state), state, ok, {Mounted(engine)}, log == old(log))
      ensures state == old(state).(mounts := state.mounts)
      ensures old(state).mounts <= state.mounts <= old(state).mounts + {engine}
    {
      if engine in existing {
        NothingToDo(hcl, state, Mounted(engine));
        return true;
      }
      var next := state.(mounts := state.mounts + {engine});
      Mounting(hcl, state, engine);
      OneChange(hcl, state, next, Mounted(engine));
      ok := Perform(Mount(engine), next);
    }

    /** `_ensure_kv_v2_mounts`. */
    method EnsureMounts() returns (ok: bool)
      modifies this
      ensures Step(hcl, old(state), state, ok, MountGoals(), log == old(log))
      ensures state == old(state).(mounts := state.mounts)
    {
      var existing := state.mounts;
      ProgressIsReflexive(hcl, state);
      for n := 0 to |ENGINES|
        invariant Step(hcl, old(state), state, true, MountGoalsTo(n), log == old(log))
        invariant state == old(state).(mounts := state.mounts) && existing <= state.mounts
        invariant forall k :: n <= k < |ENGINES| ==> (ENGINES[k] in existing <==> ENGINES[k] in state.mounts)
      {
        ghost var mid, written := state, log;
        ok := EnsureMount(existing, ENGINES[n]);
        Then(hcl, old(state), mid, state, ok, MountGoalsTo(n), {Mounted(ENGINES[n])}, old(log), written, log);
        if !ok {
          Stopped(hcl, old(state), state, MountGoalsTo(n + 1), MountGoals(), log == old(log));
          return;
        }
      }
      ok := true;
    }

    /** `_ensure_kubernetes_auth_method`: present is taken for configured. */
    method EnsureAuthMethod() returns (ok: bool)
      modifies this
      ensures Step(hcl, old(state), state, ok, {AuthPresent}, log == old(log))
      ensures state.kv == old(state).kv
      ensures ok ==> (state.authConfigured <==> old(state).authConfigured || !old(state).authEnabled)
      ensures !old(state).authEnabled && old(budget) == 1 ==>
        !ok && state == old(state).(authEnabled := true)
    {
      if state.authEnabled {
        return true;
      }
      assert !Met(hcl, state, AuthPresent);
      EnablingAuth(hcl, state);
      ConfiguringAuth(hcl, state);
      ok := Perform(EnableAuth, state.(authEnabled := true));
      if !ok {
        return;
      }
      ok := Perform(ConfigureAuth, state.(authConfigured := true));
    }

    /** `_ensure_policy`. */
    method EnsurePolicy(i: Identity) returns (ok: bool)
      modifies this
      ensures Step(hcl, old(state), state, ok, {PolicyCurrent(i)}, log == old(log))
      ensures state.kv == old(state).kv
    {
      if i in state.policies && Strip(state.policies[i]) == Strip(hcl(i)) {
        NothingToDo(hcl, state, PolicyCurrent(i));
        return true;
      }
      var next := state.(policies := state.policies[i := hcl(i)]);
      PuttingAPolicy(hcl, state, i);
      OneChange(hcl, state, next, PolicyCurrent(i));
      ok := Perform(PutPolicy(i), next);
    }

    /** `_ensure_kubernetes_role`: only the account names are compared. */
    method EnsureRole(i: Identity) returns (ok: bool)
      modifies this
      ensures Step(hcl, old(state), state, ok, {RoleCurrent(i)}, log == old(log))
      ensures state.kv == old(state).kv
    {
      if i in state.roles && SameAccounts(state.roles[i], RoleTarget(i)) {
        NothingToDo(hcl, state, RoleCurrent(i));
        return true;
      }
      var next := state.(roles := state.roles[i := RoleTarget(i)]);
      PuttingARole(hcl, state, i);
      OneChange(hcl, state, next, RoleCurrent(i));
      ok := Perform(PutRole(i), next);
    }

    /** One identity: its policy, then its role. */
    method EnsureIdentity(i: Identity) returns (ok: bool)
      modifies this
      ensures Step(hcl, old(state), state, ok, IdentityGoals(i), log == old(log))
      ensures state.kv == old(state).kv
    {
      ok := EnsurePolicy(i);
      if !ok {
        Stopped(hcl, old(state), state, {PolicyCurrent(i)}, IdentityGoals(i), log == old(log));
        return;
      }
      ghost var mid, written := state, log;
      ok := EnsureRole(i);
      Then(hcl, old(state), mid, state, ok, {PolicyCurrent(i)}, {RoleCurrent(i)}, old(log), written, log);
      assert {PolicyCurrent(i)} + {RoleCurrent(i)} == IdentityGoals(i);
    }

    /** `_ensure_audit_device`. */
    method EnsureAuditDevice() returns (ok: bool)
      modifies this
      ensures Step(hcl, old(state), state, ok, {AuditPresent}, log == old(log))
      ensures state.kv == old(state).kv
    {
      if state.audit {
        NothingToDo(hcl, state, AuditPresent);
        return true;
      }
      var next := state.(audit := true);
      EnablingAudit(hcl, state);
      OneChange(hcl, state, next, AuditPresent);
      ok := Perform(EnableAudit, next);
    }

    /** The block that sets a role's password and then stores it, shared by three secrets. */
    method EnsureDatabaseSecret(p: Path) returns (ok: bool)
      requires HoldsPassword(p)
      modifies this
      ensures Step(hcl, old(state), state, ok, {SecretPresent(p)}, log == old(log))
      ensures SameBut(old(state), state, p, p)
    {
      if p in state.kv {
        return true;
      }
      assert !Met(hcl, state, SecretPresent(p));
      var password: string := *;
      ReplacingAPassword(hcl, state, p, password);
      ProgressIsReflexive(hcl, state);
      ok := Perform(SetPassword(RoleOf(p)), state.(passwords := state.passwords[RoleOf(p) := password]));
      if !ok {
        return;
      }
      ok := Perform(PutSecret(p), state.(kv := state.kv[p := Stored(p, password)]));
    }

    /** A secret copied from outside the script; None is a source that is not there. */
    method EnsureCopiedSecret(p: Path, value: Option<string>) returns (ok: bool)
      requires !HoldsPassword(p) && p != AirflowAnalytics
      modifies this
      ensures Step(hcl, old(state), state, ok, {SecretPresent(p)}, log == old(log))
      ensures SameBut(old(state), state, p, p) && KeptOr(old(state), state, p, value)
      ensures ok ==> p in state.kv && (if p in old(state).kv then state.kv[p] == old(state).kv[p] else value == Some(state.kv[p]))
    {
      if p in state.kv {
        NothingToDo(hcl, state, SecretPresent(p));
        return true;
      }
      assert !Met(hcl, state, SecretPresent(p));
      if value.None? {
        ProgressIsReflexive(hcl, state);
        return false;
      }
      var next := state.(kv := state.kv[p := value.value]);
      PuttingASecret(hcl, state, p, value.value);
      OneChange(hcl, state, next, SecretPresent(p));
      ok := Perform(PutSecret(p), next);
    }

    /** The Airflow connection, copied from the ETL DSN. */
    method EnsureAirflowConnection() returns (ok: bool)
      modifies this
      ensures Step(hcl, old(state), state, ok, {SecretPresent(AirflowAnalytics)}, log == old(log))
      ensures SameBut(old(state), state, AirflowAnalytics, AirflowAnalytics)
    {
      if AirflowAnalytics in state.kv {
        return true;
      }
      assert !Met(hcl, state, SecretPresent(AirflowAnalytics));
      if EtlAnalytics !in state.kv {
        ProgressIsReflexive(hcl, state);
        return false;
      }
      PuttingASecret(hcl, state, AirflowAnalytics, state.kv[EtlAnalytics]);
      ok := Perform(PutSecret(AirflowAnalytics), state.(kv := state.kv[AirflowAnalytics := state.kv[EtlAnalytics]]));
    }

    /** The mounts and the auth method. */
    method EnsureBase() returns (ok: bool)
      modifies this
      ensures Step(hcl, old(state), state, ok, BaseGoals(), log == old(log))
      ensures state.kv == old(state).kv
      ensures ok ==> (state.authConfigured <==> old(state).authConfigured || !old(state).authEnabled)
    {
      ok := EnsureMounts();
      ghost var goals := MountGoals();
      if !ok {
        Stopped(hcl, old(state), state, goals, BaseGoals(), log == old(log));
        return;
      }
      ghost var mid, written := state, log;
      ok := EnsureAuthMethod();
      Then(hcl, old(state), mid, state, ok, goals, {AuthPresent}, old(log), written, log);
    }

    /** The identities, with the dbt secret, and the audit device. */
    method EnsureIdentities() returns (ok: bool)
      modifies this
      ensures Step(hcl, old(state), state, ok, IdentitiesGoals(), log == old(log))
      ensures SameBut(old(state), state, EtlDbt, EtlDbt)
    {
      ok := EnsureIdentity(CsvProcessor);
      ghost var goals := IdentityGoals(CsvProcessor);
      if !ok {
        Stopped(hcl, old(state), state, goals, IdentitiesGoals(), log == old(log));
        return;
      }
      ghost var mid, written := state, log;
      ok := EnsureIdentity(Dbt);
      Then(hcl, old(state), mid, state, ok, goals, IdentityGoals(Dbt), old(log), written, log);
      goals := goals + IdentityGoals(Dbt);
      if !ok {
        Stopped(hcl, old(state), state, goals, IdentitiesGoals(), log == old(log));
        return;
      }
      mid, written := state, log;
      ok := EnsureDatabaseSecret(EtlDbt);
      Then(hcl, old(state), mid, state, ok, goals, {SecretPresent(EtlDbt)}, old(log), written, log);
      goals := goals + {SecretPresent(EtlDbt)};
      if !ok {
        Stopped(hcl, old(state), state, goals, IdentitiesGoals(), log == old(log));
        return;
      }
      mid, written := state, log;
      ok := EnsureIdentity(Airflow);
      Then(hcl, old(state), mid, state, ok, goals, IdentityGoals(Airflow), old(log), written, log);
      goals := goals + IdentityGoals(Airflow);
      if !ok {
        Stopped(hcl, old(state), state, goals, IdentitiesGoals(), log == old(log));
        return;
      }
      mid, written := state, log;
      ok := EnsureAuditDevice();
      Then(hcl, old(state), mid, state, ok, goals, {AuditPresent}, old(log), written, log);
    }

    /** `_ensure_etl_secrets`. */
    method EnsureEtlSecrets(minioKey: string) returns (ok: bool)
      modifies this
      ensures Step(hcl, old(state), state, ok, SecretsGoals(EtlAnalytics, EtlMinio), log == old(log))
      ensures SameBut(old(state), state, EtlAnalytics, EtlMinio) && KeptOr(old(state), state, EtlMinio, Some(minioKey))
    {
      ok := EnsureDatabaseSecret(EtlAnalytics);
      if !ok {
        Stopped(hcl, old(state), state, {SecretPresent(EtlAnalytics)}, SecretsGoals(EtlAnalytics, EtlMinio), log == old(log));
        return;
      }
      ghost var mid, written := state, log;
      ok := EnsureCopiedSecret(EtlMinio, Some(minioKey));
      Then(hcl, old(state), mid, state, ok, {SecretPresent(EtlAnalytics)}, {SecretPresent(EtlMinio)}, old(log), written, log);
    }

    /** `_ensure_airflow_secrets`. */
    method EnsureAirflowSecrets(minioUri: string) returns (ok: bool)
      modifies this
      ensures Step(hcl, old(state), state, ok, SecretsGoals(AirflowMinio, AirflowAnalytics), log == old(log))
      ensures SameBut(old(state), state, AirflowMinio, AirflowAnalytics) && KeptOr(old(state), state, AirflowMinio, Some(minioUri))
    {
      ok := EnsureCopiedSecret(AirflowMinio, Some(minioUri));
      if !ok {
        Stopped(hcl, old(state), state, {SecretPresent(AirflowMinio)}, SecretsGoals(AirflowMinio, AirflowAnalytics), log == old(log));
        return;
      }
      ghost var mid, written := state, log;
      ok := EnsureAirflowConnection();
      Then(hcl, old(state), mid, state, ok, {SecretPresent(AirflowMinio)}, {SecretPresent(AirflowAnalytics)}, old(log), written, log);
    }

    /** The two secrets of `_ensure_grafana_secrets`. */
    method EnsureGrafanaSecrets(webhook: Option<string>) returns (ok: bool)
      modifies this
      ensures Step(hcl, old(state), state, ok, SecretsGoals(GrafanaAnalytics, GrafanaWebhook), log == old(log))
      ensures SameBut(old(state), state, GrafanaAnalytics, GrafanaWebhook) && KeptOr(old(state), state, GrafanaWebhook, webhook)
    {
      ok := EnsureDatabaseSecret(GrafanaAnalytics);
      if !ok {
        Stopped(hcl, old(state), state, {SecretPresent(GrafanaAnalytics)}, SecretsGoals(GrafanaAnalytics, GrafanaWebhook), log == old(log));
        return;
      }
      ghost var mid, written := state, log;
      ok := EnsureCopiedSecret(GrafanaWebhook, webhook);
      Then(hcl, old(state), mid, state, ok, {SecretPresent(GrafanaAnalytics)}, {SecretPresent(GrafanaWebhook)}, old(log), written, log);
    }

    /** The three secrets steps. */
    method EnsureSecrets(minioKey: string, minioUri: string, webhook: Option<string>) returns (ok: bool)
      modifies this
      ensures Step(hcl, old(state), state, ok, SecretGoals(), log == old(log))
      ensures CopiesKept(old(state), state, minioKey, minioUri, webhook)
    {
      ok := EnsureEtlSecrets(minioKey);
      ghost var goals := SecretsGoals(EtlAnalytics, EtlMinio);
      if !ok {
        Stopped(hcl, old(state), state, goals, SecretGoals(), log == old(log));
        return;
      }
      ghost var mid, written := state, log;
      ok := EnsureAirflowSecrets(minioUri);
      Then(hcl, old(state), mid, state, ok, goals, SecretsGoals(AirflowMinio, AirflowAnalytics), old(log), written, log);
      goals := goals + SecretsGoals(AirflowMinio, AirflowAnalytics);
      if !ok {
        Stopped(hcl, old(state), state, goals, SecretGoals(), log == old(log));
        return;
      }
      mid, written := state, log;
      ok := EnsureGrafanaSecrets(webhook);
      Then(hcl, old(state), mid, state, ok, goals, SecretsGoals(GrafanaAnalytics, GrafanaWebhook), old(log), written, log);
    }

    /** Every step but the last. */
    method EnsureAll(minioKey: string, minioUri: string, webhook: Option<string>) returns (ok: bool)
      modifies this
      ensures Step(hcl, old(state), state, ok, AllGoals(), log == old(log))
      ensures CopiesKept(old(state), state, minioKey, minioUri, webhook)
      ensures ok ==> (state.authConfigured <==> old(state).authConfigured || !old(state).authEnabled)
    {
      ok := EnsureBase();
      ghost var goals := BaseGoals();
      if !ok {
        Stopped(hcl, old(state), state, goals, AllGoals(), log == old(log));
        return;
      }
      ghost var mid, written := state, log;
      assert Met(hcl, mid, AuthPresent) by {
        assert AuthPresent in BaseGoals();
      }
      ok := EnsureIdentities();
      Then(hcl, old(state), mid, state, ok, goals, IdentitiesGoals(), old(log), written, log);
      goals := goals + IdentitiesGoals();
      if !ok {
        Stopped(hcl, old(state), state, goals, AllGoals(), log == old(log));
        return;
      }
      assert Met(hcl, state, AuthPresent);
      mid, written := state, log;
      ok := EnsureSecrets(minioKey, minioUri, webhook);
      Then(hcl, old(state), mid, state, ok, goals, SecretGoals(), old(log), written, log);
    }

    /** `bootstrap`; `done` is false when the process stopped or raised. */
    method Bootstrap(sealed: bool, minioKey: string, minioUri: string, webhook: Option<string>) returns (done: bool)
      modifies this
      ensures Progress(hcl, old(state), state)
      ensures CopiesKept(old(state), state, minioKey, minioUri, webhook)
      ensures done ==> !sealed && Converged(hcl, state) && GrafanaIsApplied(state)
      ensures done ==> (state.authConfigured <==> old(state).authConfigured || !old(state).authEnabled)
      ensures done ==>
        && state.mounts >= {Etl, AirflowKv, Grafana} && state.authEnabled && state.audit
        && forall i :: i in state.policies && Strip(state.policies[i]) == Strip(hcl(i))
      ensures done ==> CopiesAreRight(old(state), state, minioKey, minioUri, webhook)
      ensures done && Inv(old(state)) ==> DatabaseSecretsAreRight(state)
      ensures done ==> forall i :: i in state.roles && (Right(state.roles[i], i) <==> !Drifted(old(state), i))
      ensures Converged(hcl, old(state)) && done ==> log == old(log) + [ApplySecret]
      ensures Converged(hcl, old(state)) && !done ==> state == old(state) && log == old(log)
    {
      ProgressIsReflexive(hcl, state);
      if sealed {
        return false;
      }
      done := EnsureAll(minioKey, minioUri, webhook);
      if !done {
        return;
      }
      assert SecretPresent(GrafanaAnalytics) in AllGoals() && SecretPresent(GrafanaWebhook) in AllGoals();
      assert Met(hcl, state, SecretPresent(GrafanaAnalytics)) && Met(hcl, state, SecretPresent(GrafanaWebhook));
      Applying(hcl, state);
      ghost var ready := state;
      done := Perform(ApplySecret, state.(applied := Some((state.kv[GrafanaAnalytics], state.kv[GrafanaWebhook]))));
      if done {
        ProgressIsTransitive(hcl, old(state), ready, state);
        CompletedSecrets(hcl, old(state), state, minioKey, minioUri, webhook);
        CompletedBase(hcl, state);
        forall i ensures i in state.roles && (Right(state.roles[i], i) <==> !Drifted(old(state), i)) {
          EveryRoleIsAGoal(i);
          RoleIsRightExactlyWhen(hcl, old(state), state, i);
        }
      }
    }

    /** The script started again and again, each process surviving some number of writes: it
        never undoes or overwrites what is there, and what is there but wrong stays wrong. */
    method RunRepeatedly(budgets: seq<nat>, minioKey: string, minioUri: string, webhook: Option<string>)
      modifies this
      ensures Progress(hcl, old(state), state)
      ensures CopiesKept(old(state), state, minioKey, minioUri, webhook)
      ensures EtlMinio in state.kv ==>
        state.kv[EtlMinio] == if EtlMinio in old(state).kv then old(state).kv[EtlMinio] else minioKey
      ensures AirflowMinio in state.kv ==>
        state.kv[AirflowMinio] == if AirflowMinio in old(state).kv then old(state).kv[AirflowMinio] else minioUri
      ensures GrafanaWebhook in state.kv && GrafanaWebhook !in old(state).kv ==> webhook == Some(state.kv[GrafanaWebhook])
      ensures Inv(old(state)) ==> Inv(state)
      ensures old(state).kv.Keys <= state.kv.Keys && forall p :: p in old(state).kv ==> state.kv[p] == old(state).kv[p]
      ensures old(state).authEnabled ==> state.authEnabled && state.authConfigured == old(state).authConfigured
      ensures forall i :: Drifted(old(state), i) ==> i in state.roles && state.roles[i] == old(state).roles[i]
    {
      ProgressIsReflexive(hcl, state);
      for n := 0 to |budgets|
        invariant Progress(hcl, old(state), state)
        invariant CopiesKept(old(state), state, minioKey, minioUri, webhook)
      {
        ghost var before := state;
        budget := budgets[n];
        var done := Bootstrap(false, minioKey, minioUri, webhook);
        ProgressIsTransitive(hcl, old(state), before, state);
      }
      forall i | Drifted(old(state), i) ensures i in state.roles && state.roles[i] == old(state).roles[i] {
        DriftStays(hcl, old(state), state, i);
      }
      assert Met(hcl, old(state), AuthPresent) ==> Met(hcl, state, AuthPresent);
    }
  }

  lemma SecretIsAGoal(p: Path)
    ensures SecretPresent(p) in AllGoals()
  {
    if p == EtlDbt {
      assert SecretPresent(p) in IdentitiesGoals();
    } else {
      assert SecretPresent(p) in SecretGoals();
    }
  }

  lemma SecretIsThere(hcl: Policies, s: State, p: Path)
    requires Converged(hcl, s)
    ensures p in s.kv
  {
    SecretIsAGoal(p);
    assert Met(hcl, s, SecretPresent(p));
  }

  lemma FilledCopies(a: State, b: State, minioKey: string, minioUri: string, webhook: Option<string>)
    requires CopiesKept(a, b, minioKey, minioUri, webhook) && forall p :: p in b.kv
    ensures CopiesAreRight(a, b, minioKey, minioUri, webhook)
  {
  }

  lemma FilledPasswords(s: State)
    requires Inv(s) && forall p :: p in s.kv
    ensures DatabaseSecretsAreRight(s)
  {
    assert EtlAnalytics in s.kv && EtlDbt in s.kv && GrafanaAnalytics in s.kv && AirflowAnalytics in s.kv;
  }

  lemma CompletedSecrets(hcl: Policies, a: State, b: State, minioKey: string, minioUri: string, webhook: Option<string>)
    requires (Inv(a) ==> Inv(b)) && CopiesKept(a, b, minioKey, minioUri, webhook) && Converged(hcl, b)
    ensures CopiesAreRight(a, b, minioKey, minioUri, webhook)
    ensures Inv(a) ==> DatabaseSecretsAreRight(b)
  {
    forall p ensures p in b.kv {
      SecretIsThere(hcl, b, p);
    }
    FilledCopies(a, b, minioKey, minioUri, webhook);
    if Inv(a) {
      FilledPasswords(b);
    }
  }

  lemma GoalIsMet(hcl: Policies, s: State, g: Goal)
    requires Converged(hcl, s) && (g in BaseGoals() || g in IdentitiesGoals())
    ensures Met(hcl, s, g)
  {
  }

  lemma CompletedBase(hcl: Policies, s: State)
    requires Converged(hcl, s)
    ensures s.mounts >= {Etl, AirflowKv, Grafana} && s.authEnabled && s.audit
    ensures forall i :: i in s.policies && Strip(s.policies[i]) == Strip(hcl(i))
  {
    GoalIsMet(hcl, s, Mounted(Etl));
    GoalIsMet(hcl, s, Mounted(AirflowKv));
    GoalIsMet(hcl, s, Mounted(Grafana));
    GoalIsMet(hcl, s, AuthPresent);
    GoalIsMet(hcl, s, AuditPresent);
    forall i ensures i in s.policies && Strip(s.policies[i]) == Strip(hcl(i)) {
      PolicyIsCurrent(hcl, s, i);
    }
  }

  lemma PolicyIsCurrent(hcl: Policies, s: State, i: Identity)
    requires Converged(hcl, s)
    ensures i in s.policies && Strip(s.policies[i]) == Strip(hcl(i))
  {
    assert PolicyCurrent(i) in IdentityGoals(i);
    GoalIsMet(hcl, s, PolicyCurrent(i));
    assert Met(hcl, s, PolicyCurrent(i));
  }

  lemma EveryRoleIsAGoal(i: Identity)
    ensures RoleCurrent(i) in AllGoals()
  {
    assert RoleCurrent(i) in IdentityGoals(i);
  }

  lemma DriftStays(hcl: Policies, before: State, after: State, i: Identity)
    requires Progress(hcl, before, after) && Drifted(before, i)
    ensures i in after.roles && after.roles[i] == before.roles[i]
  {
    assert Met(hcl, before, RoleCurrent(i)) && Met(hcl, after, RoleCurrent(i));
    assert RoleStep(hcl, before, after.roles[i], i);
  }

  // ----- what the contracts amount to -----------------------------------------------

  const NOTHING: State := State({}, false, false, map[], map[], false, map[], map[], None)

  lemma StoredDetermines(p: Path, a: string, b: string)
    requires HoldsPassword(p) && Stored(p, a) == Stored(p, b)
    ensures a == b
  {
    if p == EtlAnalytics {
      var head, tail := "postgresql://etl_app:", "@analytics-db-rw.data:5432/analytics";
      assert |head + a + tail| == |head + b + tail|;
      assert a == (head + a + tail)[|head|..|head| + |a|];
      assert b == (head + b + tail)[|head|..|head| + |a|];
    }
  }

  /** Whatever was interrupted and restarted, from an empty cluster or any other whose secrets
      agree, a password in Vault is the one its role has, it is still the one first written,
      and the Airflow connection is the ETL DSN. */
  lemma PasswordsNeverDiverge(hcl: Policies, start: State, earlier: State, later: State, p: Path)
    requires start == NOTHING || Inv(start)
    requires Progress(hcl, start, earlier) && Progress(hcl, earlier, later)
    requires HoldsPassword(p) && p in earlier.kv
    ensures p in later.kv && later.kv[p] == earlier.kv[p]
    ensures RoleOf(p) in later.passwords && later.kv[p] == Stored(p, later.passwords[RoleOf(p)])
    ensures later.passwords[RoleOf(p)] == earlier.passwords[RoleOf(p)]
    ensures AirflowAnalytics in later.kv ==> EtlAnalytics in later.kv && later.kv[AirflowAnalytics] == later.kv[EtlAnalytics]
  {
    assert Inv(start) && Inv(earlier) && Inv(later);
  }

  /** A completed run leaves a role exactly as wanted if and only if the role it found was
      absent, had other account names, or was right already: drift in namespaces or policies
      alone is never corrected. */
  lemma RoleIsRightExactlyWhen(hcl: Policies, before: State, after: State, i: Identity)
    requires Progress(hcl, before, after) && Met(hcl, after, RoleCurrent(i))
    ensures i in after.roles
    ensures Right(after.roles[i], i) <==> !Drifted(before, i)
  {
    assert RoleStep(hcl, before, after.roles[i], i);
    if i in before.roles && SameAccounts(before.roles[i], RoleTarget(i)) {
      assert Met(hcl, before, RoleCurrent(i));
    }
    assert SameAccounts(after.roles[i], RoleTarget(i));
  }

  /** One interruption leaves an auth method enabled but unconfigured, which no run repairs. */
  method InterruptedBetweenEnableAndConfigure(hcl: Policies) returns (c: Cluster)
    ensures fresh(c) && Progress(hcl, NOTHING, c.state)
    ensures c.state.authEnabled && !c.state.authConfigured
  {
    c := new Cluster(hcl, NOTHING, 1);
    var ok := c.EnsureAuthMethod();
  }
}
