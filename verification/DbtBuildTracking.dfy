/**
  The staged-to-built protocol of one dataset: DagRuns whose tasks list the
  pending runs, mark them RUNNING, build, resolve the outcome and mark it, over
  the claim ledger. Tasks fail, a DagRun times out between any two tasks, and
  bronze commits and builds of other DAGs interleave freely.
 */
module DbtBuildTracking {
  import L = ClaimLedger
  import opened Options
  import opened RunStages

  datatype Task = Waiting | Success | Failure

  /** One DagRun's task states, in wiring order. `own` is what its stage task staged. */
  datatype DagRun = DagRun(
    stage: Task, own: set<int>,
    listing: Task, pending: set<int>,
    markRunning: Task,
    build: Task, attempts: set<L.Txid>,
    resolve: Task, verdict: Status,
    markDone: Task,
    publish: Task)

  /** `limit` is `max_active_runs`; `edge` is the `stage >> pending_run_ids` edge. */
  datatype Config = Config(dataset: string, limit: nat, edge: bool)

  datatype World = World(
    ledger: L.State,
    stageLoad: map<int, Status>,
    rows: Rows,
    dags: map<nat, DagRun>)

  /** `applied` says whether a failing task's transaction had committed. */
  datatype Event =
    | LedgerStep(e: L.Event)
    | ClaimStageLoad(run: int)
    | FailStageLoad(run: int)
    | CompleteStageLoad(run: int, stager: Option<nat>)
    | StartDag(x: nat)
    | EndDag(x: nat)  // finished, or timed out between any two tasks
    | FinishStage(x: nat, ok: bool)
    | FinishListing(x: nat, ok: bool)
    | FinishMarkRunning(x: nat, applied: bool, ok: bool, now: int)
    | StartAttempt(x: nat)
    | FinishBuild(x: nat, ok: bool)
    | FinishResolve(x: nat, ok: bool)
    | FinishMarkDone(x: nat, applied: bool, ok: bool, now: int)
    | FinishPublish(x: nat, ok: bool)

  function Init(): World {
    World(L.Init(), map[], map[], map[])
  }

  const FRESH := DagRun(Waiting, {}, Waiting, {}, Waiting, Waiting, {}, Waiting, FAILED, Waiting, Waiting)

  function Outcome(ok: bool): Task {
    if ok then Success else Failure
  }

  /** A task runs once its upstream tasks are done; the default trigger rule needs them
      all successful, `all_done` does not. */
  predicate TaskEnabled(c: Config, w: World, d: DagRun, e: Event) {
    match e
    case FinishStage(_, _) => d.stage.Waiting?
    case FinishListing(_, ok) => d.listing.Waiting? && (c.edge ==> !d.stage.Waiting? && (ok ==> d.stage.Success?))
    case FinishMarkRunning(_, applied, ok, _) =>
      && d.markRunning.Waiting? && !d.stage.Waiting? && !d.listing.Waiting?
      && (applied ==> d.stage.Success? && d.listing.Success?) && (ok ==> applied)
    case StartAttempt(_) => d.markRunning.Success? && d.build.Waiting?
    case FinishBuild(_, ok) =>
      && d.build.Waiting? && !d.markRunning.Waiting?
      && (ok ==> exists t :: t in d.attempts && t in w.ledger.built)
    case FinishResolve(_, _) => d.resolve.Waiting? && !d.build.Waiting?
    case FinishMarkDone(_, applied, ok, _) =>
      && d.markDone.Waiting? && !d.resolve.Waiting? && !d.listing.Waiting?
      && (applied ==> d.resolve.Success? && d.listing.Success?) && (ok ==> applied || d.pending == {})
    case FinishPublish(_, ok) => d.publish.Waiting? && !d.markDone.Waiting? && (ok ==> d.markDone.Success?)
    case _ => true
  }

  predicate Enabled(c: Config, w: World, e: Event) {
    match e
    case LedgerStep(l) => L.Enabled(w.ledger, l)
    case ClaimStageLoad(run) => !Staged(w.stageLoad, run)
    case FailStageLoad(run) => run in w.stageLoad && w.stageLoad[run] == RUNNING
    case CompleteStageLoad(run, stager) =>
      && run in w.stageLoad && w.stageLoad[run] == RUNNING
      && L.Key(c.dataset, run) in w.ledger.bronze
      && (stager.Some? ==> stager.value in w.dags && w.dags[stager.value].stage.Waiting?)
    case StartDag(x) => x !in w.dags && |w.dags| < c.limit
    case _ => e.x in w.dags && TaskEnabled(c, w, w.dags[e.x], e)
  }

  function Apply(c: Config, w: World, e: Event): World
    requires Enabled(c, w, e)
  {
    match e
    case LedgerStep(l) => w.(ledger := L.Apply(w.ledger, l))
    case ClaimStageLoad(run) => w.(stageLoad := w.stageLoad[run := RUNNING])
    case FailStageLoad(run) => w.(stageLoad := w.stageLoad[run := FAILED])
    case CompleteStageLoad(run, stager) =>
      var w' := w.(stageLoad := w.stageLoad[run := SUCCEEDED]);
      if stager.None? then w' else
        var d := w.dags[stager.value];
        w'.(dags := w.dags[stager.value := d.(own := d.own + {run})])
    case StartDag(x) => w.(dags := w.dags[x := FRESH])
    case EndDag(x) => w.(dags := w.dags - {x})
    case FinishStage(x, ok) => w.(dags := w.dags[x := w.dags[x].(stage := Outcome(ok))])
    case FinishListing(x, ok) =>
      var pending := if ok then PendingRuns(w.stageLoad, w.rows) else {};
      w.(dags := w.dags[x := w.dags[x].(listing := Outcome(ok), pending := pending)])
    case FinishMarkRunning(x, applied, ok, now) =>
      var d := w.dags[x];
      w.(rows := if applied then Mark(w.rows, d.pending, RUNNING, now) else w.rows,
         dags := w.dags[x := d.(markRunning := Outcome(ok))])
    case StartAttempt(x) =>
      var d := w.dags[x];
      w.(ledger := L.Apply(w.ledger, L.BeginBuild(c.dataset, true)),
         dags := w.dags[x := d.(attempts := d.attempts + {w.ledger.next})])
    case FinishBuild(x, ok) => w.(dags := w.dags[x := w.dags[x].(build := Outcome(ok))])
    case FinishResolve(x, ok) =>
      var d := w.dags[x];
      w.(dags := w.dags[x := d.(resolve := Outcome(ok), verdict := if d.build.Success? then SUCCEEDED else FAILED)])
    case FinishMarkDone(x, applied, ok, now) =>
      var d := w.dags[x];
      w.(rows := if applied then Mark(w.rows, d.pending, d.verdict, now) else w.rows,
         dags := w.dags[x := d.(markDone := Outcome(ok))])
    case FinishPublish(x, ok) => w.(dags := w.dags[x := w.dags[x].(publish := Outcome(ok))])
  }

  // ----- runs ------------------------------------------------------------------

  predicate CanRun(c: Config, w: World, es: seq<Event>)
    decreases |es|
  {
    es == [] || (Enabled(c, w, es[0]) && CanRun(c, Apply(c, w, es[0]), es[1..]))
  }

  function Exec(c: Config, w: World, es: seq<Event>): World
    requires CanRun(c, w, es)
    decreases |es|
  {
    if es == [] then w else Exec(c, Apply(c, w, es[0]), es[1..])
  }

  lemma {:induction false} ExecSnoc(c: Config, w: World, es: seq<Event>, e: Event)
    requires CanRun(c, w, es) && Enabled(c, Exec(c, w, es), e)
    ensures CanRun(c, w, es + [e]) && Exec(c, w, es + [e]) == Apply(c, Exec(c, w, es), e)
    decreases |es|
  {
    if es == [] {
      var w' := Apply(c, w, e);
      assert [e][1..] == [] && es + [e] == [e];
      assert CanRun(c, w', []) && Exec(c, w', []) == w';
    } else {
      assert (es + [e])[0] == es[0] && (es + [e])[1..] == es[1..] + [e];
      ExecSnoc(c, Apply(c, w, es[0]), es[1..], e);
    }
  }

  /** Some run of enabled events leads from one world to the other. */
  ghost predicate Leads(c: Config, from: World, w: World) {
    exists es: seq<Event> :: CanRun(c, from, es) && Exec(c, from, es) == w
  }

  ghost predicate Reachable(c: Config, w: World) {
    Leads(c, Init(), w)
  }

  lemma Onward(c: Config, from: World, w: World, e: Event) returns (w': World)
    requires Leads(c, from, w) && Enabled(c, w, e)
    ensures Leads(c, from, w') && w' == Apply(c, w, e)
  {
    var es :| CanRun(c, from, es) && Exec(c, from, es) == w;
    ExecSnoc(c, from, es, e);
    w' := Apply(c, w, e);
  }

  lemma {:induction false} OnwardLedger(c: Config, from: World, w: World, ls: seq<L.Event>) returns (w': World)
    requires Leads(c, from, w) && L.CanRun(w.ledger, ls)
    ensures Leads(c, from, w') && w' == w.(ledger := L.Exec(w.ledger, ls))
    decreases |ls|
  {
    w' := w;
    if ls != [] {
      w' := Onward(c, from, w, LedgerStep(ls[0]));
      w' := OnwardLedger(c, from, w', ls[1..]);
    }
  }

  lemma Then(c: Config, w: World, e: Event) returns (w': World)
    requires Reachable(c, w) && Enabled(c, w, e)
    ensures Reachable(c, w') && w' == Apply(c, w, e)
  {
    w' := Onward(c, Init(), w, e);
  }

  lemma ThenLedger(c: Config, w: World, ls: seq<L.Event>) returns (w': World)
    requires Reachable(c, w) && L.CanRun(w.ledger, ls)
    ensures Reachable(c, w') && w' == w.(ledger := L.Exec(w.ledger, ls))
  {
    w' := OnwardLedger(c, Init(), w, ls);
  }

  // ----- what every step keeps ----------------------------------------------------

  predicate Claimed(c: Config, w: World, run: int) {
    L.Key(c.dataset, run) in w.ledger.ledger
  }

  /** The tables: a row only for a staged run, and SUCCEEDED only for a claimed one. */
  ghost predicate TablesInv(c: Config, w: World) {
    && L.Inv(w.ledger)
    && (forall r :: Staged(w.stageLoad, r) ==> L.Key(c.dataset, r) in w.ledger.bronze)
    && (forall r :: r in w.rows ==> Staged(w.stageLoad, r) && w.rows[r].status != PENDING)
    && (forall r :: r in w.rows && w.rows[r].status == SUCCEEDED ==> Claimed(c, w, r))
  }

  /** A build attempt's snapshot, once taken, shows every run the DagRun listed. */
  ghost predicate AttemptSees(c: Config, b: L.Build, pending: set<int>) {
    && b.dataset == c.dataset
    && (!b.phase.Begun? ==> forall r :: r in pending ==> L.Key(c.dataset, r) in b.seen)
  }

  ghost predicate AttemptsInv(c: Config, w: World, d: DagRun) {
    && (forall t :: t in d.attempts ==> d.markRunning.Success? && t < w.ledger.next)
    && (forall t :: t in d.attempts && t in w.ledger.open ==> AttemptSees(c, w.ledger.open[t], d.pending))
    && (forall t :: t in d.attempts && t in w.ledger.built ==>
          !w.ledger.built[t].phase.Begun? && AttemptSees(c, w.ledger.built[t], d.pending))
  }

  predicate TaskOrder(d: DagRun) {
    && (d.listing.Waiting? || d.resolve.Waiting? ==> d.markDone.Waiting?)
    && (d.build.Waiting? ==> d.resolve.Waiting?)
    && (d.markRunning.Waiting? ==> d.build.Waiting?)
    && (d.markDone.Waiting? ==> d.publish.Waiting?)
    && (d.publish.Success? ==> d.markDone.Success?)
  }

  /** What a DagRun keeps however many are active: nothing here reads a stage row. */
  ghost predicate DagCore(c: Config, w: World, d: DagRun) {
    && (!d.listing.Success? ==> d.pending == {})
    && (d.markRunning.Success? ==> d.listing.Success? && d.stage.Success?)
    && (forall r :: r in d.pending || r in d.own ==> Staged(w.stageLoad, r))
    && TaskOrder(d)
    && (d.build.Success? ==> d.markRunning.Success? && forall r :: r in d.pending ==> Claimed(c, w, r))
    && (d.resolve.Success? ==> d.verdict == if d.build.Success? then SUCCEEDED else FAILED)
    && (d.verdict == SUCCEEDED || d.verdict == FAILED)
    && (d.markDone.Success? && d.pending != {} ==> d.resolve.Success?)
    && (c.edge && d.listing.Success? ==> d.stage.Success?)
    && AttemptsInv(c, w, d)
  }

  ghost predicate CoreInv(c: Config, w: World) {
    TablesInv(c, w) && forall x :: x in w.dags ==> DagCore(c, w, w.dags[x])
  }

  /** What the stage rows of an only DagRun's runs look like. */
  ghost predicate DagRows(c: Config, w: World, d: DagRun) {
    && (d.markDone.Waiting? ==> forall r :: r in d.pending || r in d.own ==> r in w.rows ==> w.rows[r].status != SUCCEEDED)
    && (d.markRunning.Success? && d.markDone.Waiting? ==>
          forall r :: r in d.pending ==> r in w.rows && w.rows[r].status == RUNNING)
    && (d.markDone.Success? ==> forall r :: r in d.pending ==> r in w.rows && w.rows[r].status == d.verdict)
    && (c.edge && d.listing.Success? ==> d.own <= d.pending)
  }

  /** At most one DagRun is active. */
  ghost predicate SingleDag(w: World) {
    forall x, y :: x in w.dags && y in w.dags ==> x == y
  }

  ghost predicate RowsInv(c: Config, w: World) {
    SingleDag(w) && forall x :: x in w.dags ==> DagRows(c, w, w.dags[x])
  }

  ghost predicate Inv(c: Config, w: World) {
    CoreInv(c, w) && RowsInv(c, w)
  }

  // ----- steps keep the core, with any number of DagRuns ------------------------------

  lemma LedgerStepKeepsDag(c: Config, w: World, l: L.Event, d: DagRun)
    requires TablesInv(c, w) && DagCore(c, w, d) && L.Enabled(w.ledger, l)
    ensures DagCore(c, w.(ledger := L.Apply(w.ledger, l)), d)
  {
    LedgerGrows(w.ledger, l);
    LedgerStepKeepsAttempts(c, w, l, d);
  }

  lemma LedgerStepKeepsAttempts(c: Config, w: World, l: L.Event, d: DagRun)
    requires TablesInv(c, w) && AttemptsInv(c, w, d) && L.Enabled(w.ledger, l)
    requires forall r :: r in d.pending ==> Staged(w.stageLoad, r)
    ensures AttemptsInv(c, w.(ledger := L.Apply(w.ledger, l)), d)
  {
  }

  lemma LedgerGrows(s: L.State, l: L.Event)
    requires L.Inv(s) && L.Enabled(s, l)
    ensures var s' := L.Apply(s, l);
      s.bronze <= s'.bronze && s.next <= s'.next && forall k :: k in s.ledger ==> k in s'.ledger
  {
  }

  lemma LedgerStepKeepsTables(c: Config, w: World, l: L.Event)
    requires TablesInv(c, w) && L.Enabled(w.ledger, l)
    ensures TablesInv(c, w.(ledger := L.Apply(w.ledger, l)))
  {
    L.StepKeepsInv(w.ledger, l);
    LedgerGrows(w.ledger, l);
  }

  lemma LedgerStepKeepsCore(c: Config, w: World, l: L.Event)
    requires CoreInv(c, w) && L.Enabled(w.ledger, l)
    ensures CoreInv(c, w.(ledger := L.Apply(w.ledger, l)))
  {
    LedgerStepKeepsTables(c, w, l);
    forall x | x in w.dags ensures DagCore(c, w.(ledger := L.Apply(w.ledger, l)), w.dags[x]) {
      LedgerStepKeepsDag(c, w, l, w.dags[x]);
    }
  }

  /** A committed attempt has claimed every run its DagRun listed. */
  lemma CommittedAttemptClaimsPending(c: Config, w: World, d: DagRun, t: L.Txid)
    requires TablesInv(c, w) && AttemptsInv(c, w, d) && t in d.attempts && t in w.ledger.built
    ensures forall r :: r in d.pending ==> Claimed(c, w, r)
  {
  }

  /** The core reads the ledger and which runs are staged, and nothing else of the world. */
  lemma CoreReads(c: Config, w: World, w': World, d: DagRun)
    requires DagCore(c, w, d) && w'.ledger == w.ledger
    requires forall r :: Staged(w.stageLoad, r) ==> Staged(w'.stageLoad, r)
    ensures DagCore(c, w', d)
  {
    assert AttemptsInv(c, w', d);
  }

  /** A step of one DagRun that leaves the ledger alone and loses no staged run. */
  lemma OneDagKeepsCore(c: Config, w: World, w': World, x: nat, d': DagRun)
    requires CoreInv(c, w) && TablesInv(c, w') && w'.ledger == w.ledger && w'.stageLoad == w.stageLoad
    requires w'.dags == w.dags[x := d'] && DagCore(c, w, d')
    ensures CoreInv(c, w')
  {
    forall y | y in w'.dags ensures DagCore(c, w', w'.dags[y]) {
      CoreReads(c, w, w', w'.dags[y]);
    }
  }

  lemma StageLoadKeepsTables(c: Config, w: World, e: Event)
    requires TablesInv(c, w) && Enabled(c, w, e) && (e.ClaimStageLoad? || e.FailStageLoad? || e.CompleteStageLoad?)
    ensures TablesInv(c, Apply(c, w, e))
    ensures forall r :: Staged(w.stageLoad, r) ==> Staged(Apply(c, w, e).stageLoad, r)
    ensures !Staged(w.stageLoad, e.run)
  {
  }

  lemma StageLoadKeepsCore(c: Config, w: World, e: Event)
    requires CoreInv(c, w) && Enabled(c, w, e) && (e.ClaimStageLoad? || e.FailStageLoad? || e.CompleteStageLoad?)
    ensures CoreInv(c, Apply(c, w, e))
  {
    var w' := Apply(c, w, e);
    StageLoadKeepsTables(c, w, e);
    forall x | x in w'.dags ensures DagCore(c, w', w'.dags[x]) {
      CoreReads(c, w, w', w.dags[x]);
      OwnRunKeepsDag(c, w', w.dags[x], w'.dags[x], e.run);
    }
  }

  lemma OwnRunKeepsDag(c: Config, w: World, d: DagRun, d': DagRun, run: int)
    requires DagCore(c, w, d)
    requires d' == d || (Staged(w.stageLoad, run) && d' == d.(own := d.own + {run}))
    ensures DagCore(c, w, d')
  {
    assert AttemptsInv(c, w, d');
  }

  lemma StartDagKeepsCore(c: Config, w: World, x: nat)
    requires CoreInv(c, w) && Enabled(c, w, StartDag(x))
    ensures CoreInv(c, Apply(c, w, StartDag(x)))
  {
    assert AttemptsInv(c, w, FRESH);
    OneDagKeepsCore(c, w, Apply(c, w, StartDag(x)), x, FRESH);
  }

  lemma EndDagKeepsCore(c: Config, w: World, x: nat)
    requires CoreInv(c, w) && Enabled(c, w, EndDag(x))
    ensures CoreInv(c, Apply(c, w, EndDag(x)))
  {
    var w' := Apply(c, w, EndDag(x));
    forall y | y in w'.dags ensures DagCore(c, w', w'.dags[y]) {
      CoreReads(c, w, w', w.dags[y]);
    }
  }

  lemma StageKeepsDag(c: Config, w: World, d: DagRun, ok: bool)
    requires DagCore(c, w, d) && d.stage.Waiting?
    ensures DagCore(c, w, d.(stage := Outcome(ok)))
  {
    assert AttemptsInv(c, w, d.(stage := Outcome(ok)));
  }

  lemma ListingKeepsDag(c: Config, w: World, d: DagRun, ok: bool, pending: set<int>)
    requires DagCore(c, w, d) && d.listing.Waiting? && (c.edge && ok ==> d.stage.Success?)
    requires !ok ==> pending == {}
    requires forall r :: r in pending ==> Staged(w.stageLoad, r)
    ensures DagCore(c, w, d.(listing := Outcome(ok), pending := pending))
  {
    assert d.attempts == {};
    assert AttemptsInv(c, w, d.(listing := Outcome(ok), pending := pending));
  }

  lemma MarkRunningKeepsDag(c: Config, w: World, d: DagRun, ok: bool)
    requires DagCore(c, w, d) && d.markRunning.Waiting? && (ok ==> d.stage.Success? && d.listing.Success?)
    ensures DagCore(c, w, d.(markRunning := Outcome(ok)))
  {
    assert d.attempts == {};
    assert AttemptsInv(c, w, d.(markRunning := Outcome(ok)));
  }

  lemma BuildKeepsDag(c: Config, w: World, d: DagRun, ok: bool)
    requires TablesInv(c, w) && DagCore(c, w, d) && d.build.Waiting? && !d.markRunning.Waiting?
    requires ok ==> exists t :: t in d.attempts && t in w.ledger.built
    ensures DagCore(c, w, d.(build := Outcome(ok)))
  {
    if ok {
      var t :| t in d.attempts && t in w.ledger.built;
      CommittedAttemptClaimsPending(c, w, d, t);
    }
    assert AttemptsInv(c, w, d.(build := Outcome(ok)));
  }

  lemma ResolveKeepsDag(c: Config, w: World, d: DagRun, ok: bool)
    requires DagCore(c, w, d) && d.resolve.Waiting? && !d.build.Waiting?
    ensures DagCore(c, w, d.(resolve := Outcome(ok), verdict := if d.build.Success? then SUCCEEDED else FAILED))
  {
    assert AttemptsInv(c, w, d.(resolve := Outcome(ok), verdict := if d.build.Success? then SUCCEEDED else FAILED));
  }

  lemma MarkDoneKeepsDag(c: Config, w: World, d: DagRun, ok: bool)
    requires DagCore(c, w, d) && d.markDone.Waiting? && !d.resolve.Waiting? && !d.listing.Waiting?
    requires ok ==> d.resolve.Success? || d.pending == {}
    ensures DagCore(c, w, d.(markDone := Outcome(ok)))
  {
    assert AttemptsInv(c, w, d.(markDone := Outcome(ok)));
  }

  lemma PublishKeepsDag(c: Config, w: World, d: DagRun, ok: bool)
    requires DagCore(c, w, d) && d.publish.Waiting? && !d.markDone.Waiting? && (ok ==> d.markDone.Success?)
    ensures DagCore(c, w, d.(publish := Outcome(ok)))
  {
    assert AttemptsInv(c, w, d.(publish := Outcome(ok)));
  }

  /** The tasks that write no stage row. */
  predicate IsTask(e: Event) {
    e.FinishStage? || e.FinishListing? || e.FinishBuild? || e.FinishResolve? || e.FinishPublish?
  }

  lemma TaskTouchesOneDag(c: Config, w: World, e: Event) returns (d': DagRun)
    requires IsTask(e) && Enabled(c, w, e)
    ensures Apply(c, w, e) == w.(dags := w.dags[e.x := d'])
  {
    d' := Apply(c, w, e).dags[e.x];
  }

  lemma TaskKeepsDag(c: Config, w: World, e: Event)
    requires IsTask(e) && Enabled(c, w, e) && TablesInv(c, w) && DagCore(c, w, w.dags[e.x])
    ensures DagCore(c, w, Apply(c, w, e).dags[e.x])
  {
    var d := w.dags[e.x];
    match e
    case FinishStage(_, ok) => StageKeepsDag(c, w, d, ok);
    case FinishListing(_, ok) => ListingKeepsDag(c, w, d, ok, if ok then PendingRuns(w.stageLoad, w.rows) else {});
    case FinishBuild(_, ok) => BuildKeepsDag(c, w, d, ok);
    case FinishResolve(_, ok) => ResolveKeepsDag(c, w, d, ok);
    case FinishPublish(_, ok) => PublishKeepsDag(c, w, d, ok);
  }

  lemma TaskKeepsCore(c: Config, w: World, e: Event)
    requires IsTask(e) && Enabled(c, w, e) && CoreInv(c, w)
    ensures CoreInv(c, Apply(c, w, e))
  {
    var d' := TaskTouchesOneDag(c, w, e);
    assert d' == Apply(c, w, e).dags[e.x];
    TaskKeepsDag(c, w, e);
    OneDagKeepsCore(c, w, w.(dags := w.dags[e.x := d']), e.x, d');
  }

  /** Marking listed runs, RUNNING or with a verdict that does not outrun the ledger. */
  lemma MarkKeepsTables(c: Config, w: World, w': World, d: DagRun, status: Status, now: int)
    requires TablesInv(c, w) && DagCore(c, w, d) && status != PENDING
    requires status == SUCCEEDED ==> d.build.Success?
    requires w'.ledger == w.ledger && w'.stageLoad == w.stageLoad
    requires w'.rows == w.rows || w'.rows == Mark(w.rows, d.pending, status, now)
    ensures TablesInv(c, w')
  {
  }

  lemma MarkRunningKeepsCore(c: Config, w: World, x: nat, applied: bool, ok: bool, now: int)
    requires CoreInv(c, w) && Enabled(c, w, FinishMarkRunning(x, applied, ok, now))
    ensures CoreInv(c, Apply(c, w, FinishMarkRunning(x, applied, ok, now)))
  {
    var w' := Apply(c, w, FinishMarkRunning(x, applied, ok, now));
    assert DagCore(c, w, w.dags[x]);
    MarkKeepsTables(c, w, w', w.dags[x], RUNNING, now);
    MarkRunningKeepsDag(c, w, w.dags[x], ok);
    OneDagKeepsCore(c, w, w', x, w'.dags[x]);
  }

  lemma MarkDoneKeepsCore(c: Config, w: World, x: nat, applied: bool, ok: bool, now: int)
    requires CoreInv(c, w) && Enabled(c, w, FinishMarkDone(x, applied, ok, now))
    ensures CoreInv(c, Apply(c, w, FinishMarkDone(x, applied, ok, now)))
  {
    var w' := Apply(c, w, FinishMarkDone(x, applied, ok, now));
    assert DagCore(c, w, w.dags[x]);
    MarkKeepsTables(c, w, w', w.dags[x], if applied then w.dags[x].verdict else RUNNING, now);
    MarkDoneKeepsDag(c, w, w.dags[x], ok);
    OneDagKeepsCore(c, w, w', x, w'.dags[x]);
  }

  lemma NewAttemptKeepsDag(c: Config, w: World, d: DagRun, t: L.Txid)
    requires DagCore(c, w, d) && d.markRunning.Success?
    requires t < w.ledger.next && t !in w.ledger.built
    requires t in w.ledger.open ==> w.ledger.open[t].phase.Begun? && w.ledger.open[t].dataset == c.dataset
    ensures DagCore(c, w, d.(attempts := d.attempts + {t}))
  {
    assert AttemptsInv(c, w, d.(attempts := d.attempts + {t}));
  }

  lemma AttemptKeepsCore(c: Config, w: World, x: nat)
    requires CoreInv(c, w) && Enabled(c, w, StartAttempt(x))
    ensures CoreInv(c, Apply(c, w, StartAttempt(x)))
  {
    var begin := L.BeginBuild(c.dataset, true);
    var begun := w.(ledger := L.Apply(w.ledger, begin));
    var d' := w.dags[x].(attempts := w.dags[x].attempts + {w.ledger.next});
    LedgerStepKeepsCore(c, w, begin);
    assert w.ledger.next !in w.ledger.built;
    assert DagCore(c, begun, begun.dags[x]);
    NewAttemptKeepsDag(c, begun, w.dags[x], w.ledger.next);
    OneDagKeepsCore(c, begun, begun.(dags := w.dags[x := d']), x, d');
  }

  lemma StepKeepsCore(c: Config, w: World, e: Event)
    requires CoreInv(c, w) && Enabled(c, w, e)
    ensures CoreInv(c, Apply(c, w, e))
  {
    match e
    case LedgerStep(l) => LedgerStepKeepsCore(c, w, l);
    case ClaimStageLoad(_) => StageLoadKeepsCore(c, w, e);
    case FailStageLoad(_) => StageLoadKeepsCore(c, w, e);
    case CompleteStageLoad(_, _) => StageLoadKeepsCore(c, w, e);
    case StartDag(x) => StartDagKeepsCore(c, w, x);
    case EndDag(x) => EndDagKeepsCore(c, w, x);
    case StartAttempt(x) => AttemptKeepsCore(c, w, x);
    case FinishMarkRunning(x, applied, ok, now) => MarkRunningKeepsCore(c, w, x, applied, ok, now);
    case FinishMarkDone(x, applied, ok, now) => MarkDoneKeepsCore(c, w, x, applied, ok, now);
    case _ => TaskKeepsCore(c, w, e);
  }

  // ----- and the stage rows, with one ---------------------------------------------------

  lemma StageLoadKeepsRows(c: Config, w: World, e: Event)
    requires Inv(c, w) && Enabled(c, w, e) && (e.ClaimStageLoad? || e.FailStageLoad? || e.CompleteStageLoad?)
    ensures RowsInv(c, Apply(c, w, e))
  {
    var w' := Apply(c, w, e);
    forall x | x in w'.dags ensures DagRows(c, w', w'.dags[x]) {
      assert DagCore(c, w, w.dags[x]) && DagRows(c, w, w.dags[x]);
      assert e.run !in w.rows;
    }
  }

  lemma ListingKeepsRows(c: Config, w: World, x: nat, ok: bool)
    requires Inv(c, w) && Enabled(c, w, FinishListing(x, ok))
    ensures RowsInv(c, Apply(c, w, FinishListing(x, ok)))
  {
    var w' := Apply(c, w, FinishListing(x, ok));
    var d, d' := w.dags[x], w'.dags[x];
    assert DagCore(c, w, d) && DagRows(c, w, d);
    forall r | ok && r in d.own ensures r in d'.pending {
      assert Staged(w.stageLoad, r);
      assert r in w.rows ==> w.rows[r].status == RUNNING || w.rows[r].status == FAILED;
    }
  }

  lemma MarkKeepsRows(c: Config, w: World, e: Event)
    requires Inv(c, w) && Enabled(c, w, e) && (e.FinishMarkRunning? || e.FinishMarkDone?)
    ensures RowsInv(c, Apply(c, w, e))
  {
    var w' := Apply(c, w, e);
    assert DagCore(c, w, w.dags[e.x]) && DagRows(c, w, w.dags[e.x]);
    assert DagRows(c, w', w'.dags[e.x]);
  }

  lemma PlainTaskKeepsRows(c: Config, w: World, e: Event)
    requires Inv(c, w) && Enabled(c, w, e)
    requires e.FinishStage? || e.FinishResolve? || e.FinishPublish? || e.FinishBuild? || e.StartAttempt?
    ensures RowsInv(c, Apply(c, w, e))
  {
    var w' := Apply(c, w, e);
    assert DagCore(c, w, w.dags[e.x]) && DagRows(c, w, w.dags[e.x]);
    assert DagRows(c, w', w'.dags[e.x]);
  }

  lemma StepKeepsRows(c: Config, w: World, e: Event)
    requires c.limit <= 1 && Inv(c, w) && Enabled(c, w, e)
    ensures RowsInv(c, Apply(c, w, e))
  {
    match e
    case LedgerStep(_) =>
    case ClaimStageLoad(_) => StageLoadKeepsRows(c, w, e);
    case FailStageLoad(_) => StageLoadKeepsRows(c, w, e);
    case CompleteStageLoad(_, _) => StageLoadKeepsRows(c, w, e);
    case StartDag(x) => assert w.dags == map[];
    case EndDag(x) =>
    case FinishListing(x, ok) => ListingKeepsRows(c, w, x, ok);
    case FinishMarkRunning(_, _, _, _) => MarkKeepsRows(c, w, e);
    case FinishMarkDone(_, _, _, _) => MarkKeepsRows(c, w, e);
    case _ => PlainTaskKeepsRows(c, w, e);
  }

  lemma StepKeepsInv(c: Config, w: World, e: Event)
    requires c.limit <= 1 && Inv(c, w) && Enabled(c, w, e)
    ensures Inv(c, Apply(c, w, e))
  {
    StepKeepsCore(c, w, e);
    StepKeepsRows(c, w, e);
  }

  lemma {:induction false} RunKeepsCore(c: Config, w: World, es: seq<Event>)
    requires CoreInv(c, w) && CanRun(c, w, es)
    ensures CoreInv(c, Exec(c, w, es))
    decreases |es|
  {
    if es != [] {
      StepKeepsCore(c, w, es[0]);
      RunKeepsCore(c, Apply(c, w, es[0]), es[1..]);
    }
  }

  lemma {:induction false} RunKeepsInv(c: Config, w: World, es: seq<Event>)
    requires c.limit <= 1 && Inv(c, w) && CanRun(c, w, es)
    ensures Inv(c, Exec(c, w, es))
    decreases |es|
  {
    if es != [] {
      StepKeepsInv(c, w, es[0]);
      RunKeepsInv(c, Apply(c, w, es[0]), es[1..]);
    }
  }

  lemma ReachableKeepsCore(c: Config, w: World)
    requires Reachable(c, w)
    ensures CoreInv(c, w)
  {
    var es :| CanRun(c, Init(), es) && Exec(c, Init(), es) == w;
    RunKeepsCore(c, Init(), es);
  }

  lemma ReachableKeepsInv(c: Config, w: World)
    requires c.limit <= 1 && Reachable(c, w)
    ensures Inv(c, w)
  {
    var es :| CanRun(c, Init(), es) && Exec(c, Init(), es) == w;
    RunKeepsInv(c, Init(), es);
  }

  // ----- safety over whole runs ------------------------------------------------

  predicate Succeeded(w: World, run: int) {
    run in w.rows && w.rows[run].status == SUCCEEDED
  }

  /** However many DagRuns are active, SUCCEEDED means claimed by a committed build. */
  lemma SucceededIsClaimed(c: Config, w: World, run: int)
    requires Reachable(c, w) && Succeeded(w, run)
    ensures Claimed(c, w, run) && w.ledger.ledger[L.Key(c.dataset, run)] in w.ledger.built
  {
    ReachableKeepsCore(c, w);
  }

  lemma StepKeepsSucceeded(c: Config, w: World, e: Event, run: int)
    requires c.limit <= 1 && Inv(c, w) && Enabled(c, w, e) && Succeeded(w, run)
    ensures run in Apply(c, w, e).rows && Apply(c, w, e).rows[run] == w.rows[run]
  {
    match e
    case FinishMarkRunning(x, _, _, _) => assert DagCore(c, w, w.dags[x]) && DagRows(c, w, w.dags[x]);
    case FinishMarkDone(x, _, _, _) => assert DagCore(c, w, w.dags[x]) && DagRows(c, w, w.dags[x]);
    case _ =>
  }

  lemma {:induction false} RunKeepsSucceeded(c: Config, w: World, es: seq<Event>, run: int)
    requires c.limit <= 1 && Inv(c, w) && Succeeded(w, run) && CanRun(c, w, es)
    ensures run in Exec(c, w, es).rows && Exec(c, w, es).rows[run] == w.rows[run]
    decreases |es|
  {
    if es != [] {
      StepKeepsSucceeded(c, w, es[0], run);
      StepKeepsInv(c, w, es[0]);
      RunKeepsSucceeded(c, Apply(c, w, es[0]), es[1..], run);
    }
  }

  /** With one active DagRun, a SUCCEEDED row never changes again: not its status,
      not its timestamps, in any continuation. */
  lemma SucceededRowNeverChanges(c: Config, w: World, es: seq<Event>, run: int)
    requires c.limit <= 1 && Reachable(c, w) && Succeeded(w, run) && CanRun(c, w, es)
    ensures run in Exec(c, w, es).rows && Exec(c, w, es).rows[run] == w.rows[run]
  {
    ReachableKeepsInv(c, w);
    RunKeepsSucceeded(c, w, es, run);
  }

  /** No staged run is lost: the eligibility query returns exactly the staged runs
      that are not SUCCEEDED. */
  lemma PendingIsStagedAndNotSucceeded(c: Config, w: World, run: int)
    requires Reachable(c, w)
    ensures run in PendingRuns(w.stageLoad, w.rows) <==> Staged(w.stageLoad, run) && !Succeeded(w, run)
  {
    ReachableKeepsCore(c, w);
  }

  /** A DagRun between marking its runs and marking their outcome finds the run it staged
      itself RUNNING. */
  predicate OwnRunIsRunning(w: World, x: nat, run: int)
    requires x in w.dags
  {
    w.dags[x].markRunning.Success? && w.dags[x].markDone.Waiting? && run in w.dags[x].own ==>
      run in w.rows && w.rows[run].status == RUNNING
  }

  lemma OwnRunsAreRunningWhileBuilding(c: Config, w: World, x: nat, run: int)
    requires c.limit <= 1 && c.edge && Reachable(c, w) && x in w.dags
    ensures OwnRunIsRunning(w, x, run)
  {
    ReachableKeepsInv(c, w);
    assert DagCore(c, w, w.dags[x]) && DagRows(c, w, w.dags[x]);
  }

  /** A DagRun that has published left each run it listed SUCCEEDED exactly when its own
      build task succeeded; publishing says nothing about it. */
  lemma PublishedRunsSucceededExactlyWhenBuilt(c: Config, w: World, x: nat, run: int)
    requires c.limit <= 1 && Reachable(c, w)
    requires x in w.dags && w.dags[x].publish.Success? && run in w.dags[x].pending
    ensures Succeeded(w, run) <==> w.dags[x].build.Success?
  {
    ReachableKeepsInv(c, w);
    assert DagCore(c, w, w.dags[x]) && DagRows(c, w, w.dags[x]);
  }

  function StatusIn(m: map<int, Status>, run: int): Option<Status> {
    if run in m then Some(m[run]) else None
  }

  function BuildStatusIn(rows: Rows, run: int): Option<Status> {
    if run in rows then Some(rows[run].status) else None
  }

  /** When the recovery view says to retry DBT_BUILD, the next listing picks the run up
      if and only if its STAGE_LOAD has succeeded. */
  lemma RetryDbtBuildIsPendingExactlyWhenStaged(c: Config, w: World, run: int, runSucceeded: bool, publish: Option<Status>)
    requires Reachable(c, w)
    requires NextAction(runSucceeded, StatusIn(w.stageLoad, run), BuildStatusIn(w.rows, run), publish) == RetryDbtBuild
    ensures run in PendingRuns(w.stageLoad, w.rows) <==> StatusIn(w.stageLoad, run) == Some(SUCCEEDED)
  {
    PendingIsStagedAndNotSucceeded(c, w, run);
  }

  /** A DagRun between marking RUNNING and its build. */
  const LISTED := FRESH.(stage := Success, listing := Success, pending := {1}, markRunning := Success)

  /** When the view says to retry PUBLISH, the run is staged and a DagRun has marked it, though
      its build may still be running. */
  lemma RetryPublishIsStagedAndMarked(c: Config, w: World, run: int, runSucceeded: bool, publish: Option<Status>)
    requires Reachable(c, w)
    requires NextAction(runSucceeded, StatusIn(w.stageLoad, run), BuildStatusIn(w.rows, run), publish) == RetryPublish
    ensures Staged(w.stageLoad, run) && run in w.rows && (w.rows[run].status == RUNNING || w.rows[run].status == SUCCEEDED)
    ensures w.rows[run].status == SUCCEEDED ==> Claimed(c, w, run)
    ensures publish != Some(SUCCEEDED) && publish != Some(RUNNING)
  {
    ReachableKeepsCore(c, w);
  }

  // ----- whatever fails, nothing is stuck ------------------------------------------

  /** A task looks at its own DagRun only, and a build task also at the builds that have
      committed: other DagRuns, rows and stages do not hold it up. */
  lemma TasksAreLocal(c: Config, w: World, w': World, e: Event)
    requires IsTask(e) || e.FinishMarkRunning? || e.FinishMarkDone? || e.StartAttempt? || e.EndDag?
    requires e.x in w.dags && e.x in w'.dags && w.dags[e.x] == w'.dags[e.x] && w.ledger.built == w'.ledger.built
    ensures Enabled(c, w, e) <==> Enabled(c, w', e)
  {
  }

  /** The same task failing, a marking task before or after its transaction has committed. */
  predicate IsFailureOf(e: Event, f: Event) {
    match e
    case FinishStage(x, _) => f == FinishStage(x, false)
    case FinishListing(x, _) => f == FinishListing(x, false)
    case FinishMarkRunning(x, applied, _, now) =>
      f == FinishMarkRunning(x, applied, false, now) || f == FinishMarkRunning(x, false, false, now)
    case FinishBuild(x, _) => f == FinishBuild(x, false)
    case FinishResolve(x, _) => f == FinishResolve(x, false)
    case FinishMarkDone(x, applied, _, now) =>
      f == FinishMarkDone(x, applied, false, now) || f == FinishMarkDone(x, false, false, now)
    case FinishPublish(x, _) => f == FinishPublish(x, false)
    case _ => false
  }

  /** Any task that may end may fail, and its DagRun may end instead. */
  lemma AnythingMayFail(c: Config, w: World, e: Event, f: Event)
    requires Enabled(c, w, e) && IsFailureOf(e, f)
    ensures Enabled(c, w, f) && Enabled(c, w, EndDag(e.x))
  {
  }

  lemma {:induction false} EndEveryDag(c: Config, from: World, w: World) returns (w': World)
    requires Leads(c, from, w)
    ensures Leads(c, from, w') && w' == w.(dags := map[])
    decreases |w.dags|
  {
    w' := w;
    if w.dags != map[] {
      var x :| x in w.dags;
      w' := Onward(c, from, w, EndDag(x));
      assert |w'.dags| < |w.dags| by {
        assert w'.dags.Keys == w.dags.Keys - {x} && |w'.dags| == |w'.dags.Keys| && |w.dags| == |w.dags.Keys|;
      }
      w' := EndEveryDag(c, from, w');
    }
  }

  /** Every DagRun ends and every open build aborts. */
  lemma StopEverything(c: Config, from: World, w: World) returns (w': World)
    requires Leads(c, from, w)
    ensures Leads(c, from, w') && w' == w.(dags := map[], ledger := w.ledger.(open := map[]))
  {
    w' := EndEveryDag(c, from, w);
    var aborts := L.AbortEveryOpenBuild(w'.ledger);
    w' := OnwardLedger(c, from, w', aborts);
  }

  const STAGED := FRESH.(stage := Success)

  lemma NewDagLists(c: Config, from: World, w: World) returns (w': World)
    requires Leads(c, from, w) && c.limit >= 1 && w.dags == map[]
    ensures Leads(c, from, w')
    ensures w' == w.(dags := map[0 := STAGED.(listing := Success, pending := PendingRuns(w.stageLoad, w.rows))])
  {
    var w1 := Onward(c, from, w, StartDag(0));
    assert w1 == w.(dags := map[0 := FRESH]);
    var w2 := Onward(c, from, w1, FinishStage(0, true));
    assert w2 == w.(dags := map[0 := STAGED]);
    w' := Onward(c, from, w2, FinishListing(0, true));
  }

  /** A DagRun that has nothing to stage lists and marks what is pending. */
  lemma NewDagMarks(c: Config, from: World, w: World) returns (w': World)
    requires Leads(c, from, w) && c.limit >= 1 && w.dags == map[]
    ensures Leads(c, from, w') && w'.ledger == w.ledger && w'.stageLoad == w.stageLoad
    ensures w'.dags == map[0 := LISTED.(pending := PendingRuns(w.stageLoad, w.rows))]
  {
    var w1 := NewDagLists(c, from, w);
    w' := ListedDagMarks(c, from, w1, w1.dags[0]);
  }

  lemma ListedDagMarks(c: Config, from: World, w: World, d: DagRun) returns (w': World)
    requires Leads(c, from, w) && w.dags == map[0 := d]
    requires d.markRunning.Waiting? && d.stage.Success? && d.listing.Success?
    ensures Leads(c, from, w') && w'.ledger == w.ledger && w'.stageLoad == w.stageLoad
    ensures w'.dags == map[0 := d.(markRunning := Success)]
  {
    w' := Onward(c, from, w, FinishMarkRunning(0, true, true, 0));
  }

  /** Its build begins. */
  lemma OnlyBuildBegins(c: Config, from: World, w: World, d: DagRun) returns (w': World)
    requires Leads(c, from, w) && w.dags == map[0 := d] && d.markRunning.Success? && d.build.Waiting?
    ensures Leads(c, from, w') && w'.ledger == L.Apply(w.ledger, L.BeginBuild(c.dataset, true))
    ensures w'.dags == map[0 := d.(attempts := d.attempts + {w.ledger.next})]
  {
    w' := Onward(c, from, w, StartAttempt(0));
  }

  /** A build that is open alone takes its snapshot, claims and commits. */
  lemma OnlyBuildCommits(c: Config, from: World, w: World, t: L.Txid) returns (w': World)
    requires Leads(c, from, w) && L.Inv(w.ledger) && w.ledger.open.Keys == {t} && w.ledger.open[t].phase.Begun?
    ensures Leads(c, from, w') && w' == w.(ledger := w'.ledger) && t in w'.ledger.built
  {
    var w1 := Onward(c, from, w, LedgerStep(L.TakeSnapshot(t)));
    L.StepKeepsInv(w.ledger, L.TakeSnapshot(t));
    forall k ensures !L.Blocked(w1.ledger, t, k) {
    }
    var rest := L.TryAllAndCommit(w1.ledger, t);
    w' := OnwardLedger(c, from, w1, rest);
  }

  /** Its build task ends, and the outcome is resolved. */
  lemma OutcomeIsResolved(c: Config, from: World, w: World, d: DagRun, t: L.Txid) returns (w': World)
    requires Leads(c, from, w) && t in w.ledger.built
    requires w.dags == map[0 := d] && d == LISTED.(pending := d.pending, attempts := {t})
    ensures Leads(c, from, w')
    ensures w'.dags == map[0 := d.(build := Success, resolve := Success, verdict := SUCCEEDED)]
  {
    var w1 := Onward(c, from, w, FinishBuild(0, true));
    w' := Onward(c, from, w1, FinishResolve(0, true));
  }

  /** Its outcome is marked. */
  lemma OutcomeIsMarked(c: Config, from: World, w: World, d: DagRun) returns (w': World)
    requires Leads(c, from, w) && w.dags == map[0 := d]
    requires d.markDone.Waiting? && d.resolve.Success? && d.listing.Success? && d.verdict == SUCCEEDED
    ensures Leads(c, from, w') && forall r :: r in d.pending ==> Succeeded(w', r)
  {
    w' := Onward(c, from, w, FinishMarkDone(0, true, true, 0));
  }

  /** No staged run is ever stuck: from every reachable world, whatever has failed, timed out or
      is still open, some continuation marks it SUCCEEDED, with its claim in the ledger. */
  lemma NoStagedRunIsStuck(c: Config, w: World, run: int) returns (w': World)
    requires c.limit >= 1 && Reachable(c, w) && Staged(w.stageLoad, run)
    ensures Leads(c, w, w') && Succeeded(w', run)
  {
    assert CanRun(c, w, []) && Exec(c, w, []) == w;
    w' := w;
    if !Succeeded(w, run) {
      PendingIsStagedAndNotSucceeded(c, w, run);
      ReachableKeepsCore(c, w);
      w' := StopEverything(c, w, w);
      NoOpenBuildKeepsInv(w.ledger);
      var pending := PendingRuns(w.stageLoad, w.rows);
      var listed := NewDagMarks(c, w, w');
      var t := listed.ledger.next;
      var begun := OnlyBuildBegins(c, w, listed, listed.dags[0]);
      L.StepKeepsInv(listed.ledger, L.BeginBuild(c.dataset, true));
      assert begun.ledger.open.Keys == {t} && begun.dags[0].attempts == {t};
      var built := OnlyBuildCommits(c, w, begun, t);
      var resolved := OutcomeIsResolved(c, w, built, built.dags[0], t);
      w' := OutcomeIsMarked(c, w, resolved, resolved.dags[0]);
    }
  }

  lemma NoOpenBuildKeepsInv(s: L.State)
    requires L.Inv(s)
    ensures L.Inv(s.(open := map[]))
  {
  }

  // ----- where the obvious claims fail --------------------------------------------

  lemma InitReachable(c: Config)
    ensures Reachable(c, Init())
  {
    assert CanRun(c, Init(), []) && Exec(c, Init(), []) == Init();
  }

  /** The view tells an operator to retry DBT_BUILD for a run still staging, which no
      listing returns. */
  lemma RecoveryViewNamesARunStillStaging(c: Config) returns (w: World)
    ensures Reachable(c, w)
    ensures NextAction(false, StatusIn(w.stageLoad, 1), BuildStatusIn(w.rows, 1), None) == RetryDbtBuild
    ensures 1 !in PendingRuns(w.stageLoad, w.rows)
  {
    InitReachable(c);
    w := Then(c, Init(), ClaimStageLoad(1));
  }

  /** Run 1 of the dataset, in bronze. */
  function Bronze1(c: Config): L.State {
    L.Init().(bronze := {L.Key(c.dataset, 1)})
  }

  /** A world where run 1 is staged. */
  function World1(c: Config, rows: Rows, dags: map<nat, DagRun>): World {
    World(Bronze1(c), map[1 := SUCCEEDED], rows, dags)
  }

  const STAGING_1 := FRESH.(own := {1})

  /** Run 1 is committed to bronze while DagRun 0 stages it. */
  lemma OneRunStaging(c: Config, early: bool) returns (w: World)
    requires c.limit >= 1 && (early ==> !c.edge)
    ensures Reachable(c, w)
    ensures w == World(Bronze1(c), map[1 := RUNNING], map[], map[0 := FRESH.(listing := if early then Success else Waiting)])
  {
    InitReachable(c);
    w := Then(c, Init(), StartDag(0));
    if early {
      w := Then(c, w, FinishListing(0, true));
      assert w.dags[0].pending == {};
    }
    w := Then(c, w, ClaimStageLoad(1));
    w := Then(c, w, LedgerStep(L.CommitBronze(L.Key(c.dataset, 1))));
    assert w.ledger == Bronze1(c);
  }

  /** DagRun 0 has staged run 1; its listing may have run first. */
  lemma OneRunStaged(c: Config, early: bool) returns (w: World)
    requires c.limit >= 1 && (early ==> !c.edge)
    ensures Reachable(c, w)
    ensures w == World1(c, map[], map[0 := STAGING_1.(stage := Success, listing := if early then Success else Waiting)])
  {
    w := OneRunLoaded(c, early);
    w := Then(c, w, FinishStage(0, true));
  }

  lemma OneRunLoaded(c: Config, early: bool) returns (w: World)
    requires c.limit >= 1 && (early ==> !c.edge)
    ensures Reachable(c, w)
    ensures w == World1(c, map[], map[0 := STAGING_1.(listing := if early then Success else Waiting)])
  {
    w := OneRunStaging(c, early);
    w := Then(c, w, CompleteStageLoad(1, Some(0)));
    assert w.dags[0].own == {1};
  }

  /** Without the edge a DagRun can list before it stages, and build with its own run
      unmarked. */
  lemma WithoutTheEdgeAnOwnRunIsUnmarked(c: Config) returns (w: World)
    requires c.limit >= 1 && !c.edge
    ensures Reachable(c, w) && 0 in w.dags && !OwnRunIsRunning(w, 0, 1)
  {
    w := OneRunStaged(c, true);
    w := Then(c, w, FinishMarkRunning(0, true, true, 10));
  }

  const RUNNING_1: Rows := map[1 := Row(RUNNING, 10, None)]

  lemma ListAndMark(c: Config) returns (w: World)
    requires c.limit >= 1
    ensures Reachable(c, w)
    ensures w == World1(c, RUNNING_1, map[0 := LISTED.(own := {1})])
  {
    w := OneRunStaged(c, false);
    w := Then(c, w, FinishListing(0, true));
    assert w.dags[0].pending == {1};
    w := Then(c, w, FinishMarkRunning(0, true, true, 10));
    assert w.rows == RUNNING_1;
  }

  /** A DagRun whose build fails still publishes: `mark_dbt_build_done` records FAILED and
      succeeds. */
  lemma PublishRunsAfterAFailedBuild(c: Config) returns (w: World)
    requires c.limit >= 1
    ensures Reachable(c, w)
    ensures 0 in w.dags && w.dags[0].build.Failure? && w.dags[0].publish.Success?
    ensures 1 in w.rows && w.rows[1].status == FAILED && !Claimed(c, w, 1)
  {
    w := ListAndMark(c);
    w := Then(c, w, FinishBuild(0, false));
    w := Then(c, w, FinishResolve(0, true));
    w := Then(c, w, FinishMarkDone(0, true, true, 20));
    w := Then(c, w, FinishPublish(0, true));
  }

  // ----- one active DagRun is what protects a SUCCEEDED row --------------------------

  /** Two DagRuns have both listed and marked run 1. */
  lemma BothListed(c: Config) returns (w: World)
    requires c.limit >= 2
    ensures Reachable(c, w)
    ensures w == World1(c, RUNNING_1, map[0 := LISTED.(own := {1}), 1 := LISTED])
  {
    w := ListAndMark(c);
    w := Then(c, w, StartDag(1));
    w := Then(c, w, FinishStage(1, true));
    w := Then(c, w, FinishListing(1, true));
    assert w.dags[1].pending == {1};
    w := Then(c, w, FinishMarkRunning(1, true, true, 10));
    assert w.rows == RUNNING_1;
  }

  /** With two, the other one's failure takes the run away from under the first one's build. */
  lemma SecondDagRunUnmarksAnOwnRun(c: Config) returns (w: World)
    requires c.limit >= 2
    ensures Reachable(c, w) && 0 in w.dags && !OwnRunIsRunning(w, 0, 1)
  {
    w := BothListed(c);
    w := Then(c, w, FinishBuild(1, false));
    w := Then(c, w, FinishResolve(1, true));
    w := Then(c, w, FinishMarkDone(1, true, true, 20));
  }

  ghost predicate OwnRunsAreRunning(c: Config) {
    forall w, x, run | Reachable(c, w) && x in w.dags :: OwnRunIsRunning(w, x, run)
  }

  /** A DagRun always builds with its own runs marked if and only if it waits for its own
      staging and no other DagRun is active. */
  lemma OwnRunsAreRunningExactlyWhen(c: Config)
    requires c.limit >= 1
    ensures OwnRunsAreRunning(c) <==> c.edge && c.limit == 1
  {
    if c.limit >= 2 {
      var w := SecondDagRunUnmarksAnOwnRun(c);
    } else if !c.edge {
      var w := WithoutTheEdgeAnOwnRunIsUnmarked(c);
    } else {
      forall w, x, run | Reachable(c, w) && x in w.dags ensures OwnRunIsRunning(w, x, run) {
        OwnRunsAreRunningWhileBuilding(c, w, x, run);
      }
    }
  }

  const FIRST_BUILDING: map<nat, DagRun> := map[0 := LISTED.(own := {1}, attempts := {0}), 1 := LISTED]

  /** The first one's build has begun. */
  lemma FirstBegins(c: Config) returns (w: World)
    requires c.limit >= 2
    ensures Reachable(c, w) && w.rows == RUNNING_1 && w.dags == FIRST_BUILDING
    ensures w.ledger == Bronze1(c).(open := map[0 := L.Build(c.dataset, true, L.Begun, {}, {}, {})], next := 1)
  {
    w := BothListed(c);
    w := Then(c, w, StartAttempt(0));
  }

  /** The first one's build has claimed run 1. */
  lemma FirstClaims(c: Config) returns (w: World)
    requires c.limit >= 2
    ensures Reachable(c, w) && w.rows == RUNNING_1 && w.dags == FIRST_BUILDING
    ensures 0 in w.ledger.open && w.ledger.open[0].phase == L.Claiming({}) && w.ledger.open[0].incremental
    ensures w.ledger.open[0].claims <= w.ledger.bronze
  {
    var k := L.Key(c.dataset, 1);
    w := FirstBegins(c);
    w := Then(c, w, LedgerStep(L.TakeSnapshot(0)));
    assert w.ledger.open[0].phase.pending == {k};
    w := Then(c, w, LedgerStep(L.InsertClaim(0, k)));
    assert w.ledger.open[0].phase.pending == {};
  }

  lemma FirstCommits(c: Config) returns (w: World)
    requires c.limit >= 2
    ensures Reachable(c, w) && 0 in w.ledger.built && w.rows == RUNNING_1 && w.dags == FIRST_BUILDING
  {
    w := FirstClaims(c);
    var ls := L.CommitAfterClaims(w.ledger, 0);
    w := ThenLedger(c, w, ls);
  }

  /** Its DagRun marks run 1 SUCCEEDED. */
  lemma FirstSucceeds(c: Config) returns (w: World)
    requires c.limit >= 2
    ensures Reachable(c, w) && Succeeded(w, 1)
    ensures 1 in w.dags && w.dags[1] == LISTED
  {
    w := FirstCommits(c);
    w := Then(c, w, FinishBuild(0, true));
    w := Then(c, w, FinishResolve(0, true));
    w := Then(c, w, FinishMarkDone(0, true, true, 20));
  }

  /** The second DagRun, whose build fails, then overwrites it with FAILED. */
  lemma SecondDagRunOverwritesSucceeded(c: Config) returns (w: World, es: seq<Event>)
    requires c.limit >= 2
    ensures Reachable(c, w) && Succeeded(w, 1)
    ensures CanRun(c, w, es) && !Succeeded(Exec(c, w, es), 1)
  {
    var w0 := FirstSucceeds(c);
    w := Then(c, w0, FinishBuild(1, false));
    w := Then(c, w, FinishResolve(1, true));
    var e := FinishMarkDone(1, true, true, 30);
    ExecSnoc(c, w, [], e);
    es := [] + [e];
  }

  ghost predicate SucceededIsFinal(c: Config) {
    forall w, es: seq<Event>, run :: Reachable(c, w) && CanRun(c, w, es) && Succeeded(w, run) ==>
      Succeeded(Exec(c, w, es), run)
  }

  /** SUCCEEDED is final in every run if and only if at most one DagRun is active. */
  lemma SucceededIsFinalExactlyWithOneActiveDagRun(c: Config)
    ensures SucceededIsFinal(c) <==> c.limit <= 1
  {
    if c.limit <= 1 {
      forall w, es: seq<Event>, run | Reachable(c, w) && CanRun(c, w, es) && Succeeded(w, run)
        ensures Succeeded(Exec(c, w, es), run)
      {
        SucceededRowNeverChanges(c, w, es, run);
      }
    } else {
      var w, es := SecondDagRunOverwritesSucceeded(c);
    }
  }
}
