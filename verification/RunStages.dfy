/**
  The DBT_BUILD rows of `meta.run_stages`: the upsert loop of
  `record_dbt_build_stage`, the eligibility query and the recovery view.
 */
module RunStages {

  import opened Options

  datatype Status = PENDING | RUNNING | SUCCEEDED | FAILED

  datatype Row = Row(status: Status, startedAt: int, finishedAt: Option<int>)

  /** DBT_BUILD rows by run id. `UNIQUE(run_id, stage_name)` makes it a map. */
  type Rows = map<int, Row>

  /** One INSERT ... ON CONFLICT DO UPDATE: a conflict keeps `started_at`, and a
      RUNNING write keeps `finished_at`. */
  function Upserted(rows: Rows, run: int, status: Status, now: int): Row {
    var finished :=
      if status != RUNNING then Some(now)
      else if run in rows then rows[run].finishedAt
      else None;
    Row(status, if run in rows then rows[run].startedAt else now, finished)
  }

  /** All runs of a set written at once. */
  function Mark(rows: Rows, runs: set<int>, status: Status, now: int): Rows {
    map r | r in rows.Keys + runs :: if r in runs then Upserted(rows, r, status, now) else rows[r]
  }

  /** Writing a run twice is writing it once. */
  lemma OneMoreMarked(rows: Rows, runs: set<int>, run: int, status: Status, now: int)
    ensures var marked := Mark(rows, runs, status, now);
      Mark(rows, runs + {run}, status, now) == marked[run := Upserted(marked, run, status, now)]
  {
  }

  function Elements(runIds: seq<int>): set<int> {
    set r | r in runIds
  }

  /** One attempt: marked RUNNING, then with its outcome. The row keeps the start of the first
      attempt ever, finishes with the last one, and while a retry runs it still shows the
      finish of the attempt before. Other rows stay as they are. */
  lemma AttemptTimes(rows: Rows, runs: set<int>, run: int, outcome: Status, started: int, ended: int)
    requires run in runs && outcome != RUNNING
    ensures var during := Mark(rows, runs, RUNNING, started);
      var after := Mark(during, runs, outcome, ended);
      && during[run].status == RUNNING && after[run].status == outcome
      && during[run].startedAt == after[run].startedAt == (if run in rows then rows[run].startedAt else started)
      && during[run].finishedAt == (if run in rows then rows[run].finishedAt else None)
      && after[run].finishedAt == Some(ended)
      && (forall r :: r !in runs ==> (r in after <==> r in rows) && (r in rows ==> after[r] == rows[r]))
  {
  }

  class StageTable {
    var rows: Rows

    constructor ()
      ensures rows == map[]
    {
      rows := map[];
    }

    /** Writes one row per run id. Repeated ids and any order give the same table. */
    method RecordDbtBuildStage(runIds: seq<int>, status: Status, now: int)
      modifies this
      ensures rows == Mark(old(rows), Elements(runIds), status, now)
    {
      ghost var before := rows;
      if |runIds| == 0 {
        assert rows == Mark(before, Elements(runIds), status, now);
        return;
      }
      for i := 0 to |runIds|
        invariant rows == Mark(before, Elements(runIds[..i]), status, now)
      {
        var run := runIds[i];
        OneMoreMarked(before, Elements(runIds[..i]), run, status, now);
        assert Elements(runIds[..i + 1]) == Elements(runIds[..i]) + {run};
        rows := rows[run := Upserted(rows, run, status, now)];
      }
      assert runIds[..|runIds|] == runIds;
    }
  }

  /** STAGE_LOAD has succeeded for the run. */
  predicate Staged(stageLoad: map<int, Status>, run: int) {
    run in stageLoad && stageLoad[run] == SUCCEEDED
  }

  /** The eligibility query of `list_run_ids_pending_dbt_build`. */
  function PendingRuns(stageLoad: map<int, Status>, rows: Rows): set<int> {
    set r | r in stageLoad && stageLoad[r] == SUCCEEDED
            && (r !in rows || rows[r].status == FAILED || rows[r].status == RUNNING)
  }

  // ----- the recovery view `meta.v_run_recovery` ------------------------------

  datatype Action = Complete | RetryStageLoad | RetryDbtBuild | RetryPublish | InProgress

  predicate Unfinished(status: Option<Status>) {
    status == None || status == Some(FAILED) || status == Some(PENDING)
  }

  function NextAction(runSucceeded: bool, stageLoad: Option<Status>, dbtBuild: Option<Status>, publish: Option<Status>): Action {
    if runSucceeded && publish == Some(SUCCEEDED) then Complete
    else if Unfinished(stageLoad) then RetryStageLoad
    else if Unfinished(dbtBuild) then RetryDbtBuild
    else if Unfinished(publish) then RetryPublish
    else InProgress
  }
}
