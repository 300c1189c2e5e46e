/**
  The claim ledger `meta.dbt_processed_runs` and the `dbt build` transactions
  that insert into it, as a transition system over every interleaving of bronze
  commits, overlapping builds, commits and aborts.

  PostgreSQL's part is modelled statement by statement: the claim INSERT takes
  one snapshot of bronze and of the committed ledger, then inserts row by row; a
  row whose key another open transaction has inserted waits on the primary key,
  and ON CONFLICT DO NOTHING drops it once that transaction has committed.
 */
module ClaimLedger {

  type Txid = nat

  /** The ledger's primary key; `run` is a bronze `_run_id`. */
  datatype Key = Key(dataset: string, run: int)

  datatype Phase =
    | Begun
    | Claiming(pending: set<Key>)  // rows of the INSERT not yet attempted
    | Claimed                      // the INSERT has finished
    | Materialized                 // the model's SELECT has run

  /** One build transaction of one silver model.
      `seen` is what the claim INSERT's snapshot showed in bronze. */
  datatype Build = Build(
    dataset: string,
    incremental: bool,
    phase: Phase,
    seen: set<Key>,
    claims: set<Key>,
    selected: set<Key>)

  datatype State = State(
    bronze: set<Key>,          // runs whose bronze rows are committed
    ledger: map<Key, Txid>,    // committed rows: key to claimed_txid
    open: map<Txid, Build>,
    built: map<Txid, Build>,   // committed builds
    next: Txid)

  datatype Event =
    | CommitBronze(key: Key)
    | BeginBuild(dataset: string, incremental: bool)
    | TakeSnapshot(t: Txid)
    | InsertClaim(t: Txid, key: Key)
    | FinishClaims(t: Txid)
    | SelectRows(t: Txid)
    | CommitBuild(t: Txid)
    | AbortBuild(t: Txid)

  function Init(): State {
    State({}, map[], map[], map[], 0)
  }

  function InDataset(keys: set<Key>, dataset: string): set<Key> {
    set k | k in keys && k.dataset == dataset
  }

  /** Another open transaction holds an uncommitted row with this primary key. */
  predicate Blocked(s: State, t: Txid, key: Key) {
    exists t' :: t' in s.open && t' != t && key in s.open[t'].claims
  }

  predicate Enabled(s: State, e: Event) {
    match e
    case CommitBronze(key) => key !in s.bronze
    case BeginBuild(_, _) => true
    case TakeSnapshot(t) => t in s.open && s.open[t].phase.Begun?
    case InsertClaim(t, key) =>
      t in s.open && s.open[t].phase.Claiming? && key in s.open[t].phase.pending && !Blocked(s, t, key)
    case FinishClaims(t) => t in s.open && s.open[t].phase == Claiming({})
    case SelectRows(t) => t in s.open && s.open[t].phase.Claimed?
    case CommitBuild(t) => t in s.open && s.open[t].phase.Materialized?
    case AbortBuild(t) => t in s.open
  }

  function Apply(s: State, e: Event): State
    requires Enabled(s, e)
  {
    match e
    case CommitBronze(key) =>
      s.(bronze := s.bronze + {key})
    case BeginBuild(dataset, incremental) =>
      s.(open := s.open[s.next := Build(dataset, incremental, Begun, {}, {}, {})], next := s.next + 1)
    case TakeSnapshot(t) =>
      var b := s.open[t];
      var seen := InDataset(s.bronze, b.dataset);
      s.(open := s.open[t := b.(phase := Claiming(seen - s.ledger.Keys), seen := seen)])
    case InsertClaim(t, key) =>
      var b := s.open[t];
      var rest := Claiming(b.phase.pending - {key});
      if key in s.ledger then s.(open := s.open[t := b.(phase := rest)])
      else s.(open := s.open[t := b.(phase := rest, claims := b.claims + {key})])
    case FinishClaims(t) =>
      s.(open := s.open[t := s.open[t].(phase := Claimed)])
    case SelectRows(t) =>
      // Only an incremental build has the `claimed_txid = txid_current()` filter.
      var b := s.open[t];
      var mine := if b.incremental then s.bronze * b.claims else InDataset(s.bronze, b.dataset);
      s.(open := s.open[t := b.(phase := Materialized, selected := mine)])
    case CommitBuild(t) =>
      var b := s.open[t];
      s.(ledger := s.ledger + (map k | k in b.claims :: t), open := s.open - {t}, built := s.built[t := b])
    case AbortBuild(t) =>
      s.(open := s.open - {t})
  }

  // ----- runs ------------------------------------------------------------

  predicate CanRun(s: State, es: seq<Event>)
    decreases |es|
  {
    es == [] || (Enabled(s, es[0]) && CanRun(Apply(s, es[0]), es[1..]))
  }

  function Exec(s: State, es: seq<Event>): State
    requires CanRun(s, es)
    decreases |es|
  {
    if es == [] then s else Exec(Apply(s, es[0]), es[1..])
  }

  lemma {:induction false} ExecConcat(s: State, es: seq<Event>, fs: seq<Event>)
    requires CanRun(s, es) && CanRun(Exec(s, es), fs)
    ensures CanRun(s, es + fs) && Exec(s, es + fs) == Exec(Exec(s, es), fs)
    decreases |es|
  {
    if es == [] {
      assert es + fs == fs;
    } else {
      assert (es + fs)[0] == es[0] && (es + fs)[1..] == es[1..] + fs;
      ExecConcat(Apply(s, es[0]), es[1..], fs);
    }
  }

  lemma ExecSnoc(s: State, es: seq<Event>, e: Event)
    requires CanRun(s, es) && Enabled(Exec(s, es), e)
    ensures CanRun(s, es + [e]) && Exec(s, es + [e]) == Apply(Exec(s, es), e)
  {
    var s' := Exec(s, es);
    assert [e][1..] == [];
    assert CanRun(Apply(s', e), []) && Exec(Apply(s', e), []) == Apply(s', e);
    assert CanRun(s', [e]) && Exec(s', [e]) == Apply(s', e);
    ExecConcat(s, es, [e]);
  }

  lemma Then(es: seq<Event>, e: Event) returns (fs: seq<Event>)
    requires CanRun(Init(), es) && Enabled(Exec(Init(), es), e)
    ensures CanRun(Init(), fs) && Exec(Init(), fs) == Apply(Exec(Init(), es), e)
  {
    ExecSnoc(Init(), es, e);
    fs := es + [e];
  }

  // ----- what every step keeps -------------------------------------------

  /** The committed ledger is exactly the union of the committed builds' claims. */
  ghost predicate LedgerInv(s: State) {
    && s.ledger.Keys <= s.bronze
    && (forall k :: k in s.ledger ==> s.ledger[k] in s.built && k in s.built[s.ledger[k]].claims)
    && (forall t, k :: t in s.built && k in s.built[t].claims ==> k in s.ledger && s.ledger[k] == t)
  }

  /** Uncommitted claims never overlap each other or the committed ledger, and every claim is
      of its build's dataset. */
  ghost predicate ExclusionInv(s: State) {
    && (forall t, k :: t in s.built && k in s.built[t].claims ==> k.dataset == s.built[t].dataset)
    && (forall t, k :: t in s.open && k in s.open[t].claims ==>
          k in s.bronze && k !in s.ledger && k.dataset == s.open[t].dataset)
    && (forall t, t', k :: t in s.open && t' in s.open && k in s.open[t].claims && k in s.open[t'].claims ==> t == t')
  }

  ghost predicate TxidInv(s: State) {
    && (forall t :: t in s.open ==> t < s.next && t !in s.built)
    && (forall t :: t in s.built ==> t < s.next)
  }

  /** Everything a build's snapshot showed is claimed, dropped as claimed, or still to try. */
  ghost predicate CoverageInv(s: State) {
    && (forall t :: t in s.open ==> BuildCovered(s, s.open[t]))
    && (forall t, k :: t in s.built && k in s.built[t].seen ==> k in s.ledger)
  }

  ghost predicate BuildCovered(s: State, b: Build) {
    && (forall k :: k in b.seen ==> k.dataset == b.dataset)
    && (b.phase.Begun? ==> b.claims == {})
    && (b.phase.Claiming? ==>
          && b.phase.pending <= b.seen
          && forall k :: k in b.seen ==> k in b.claims || k in s.ledger || k in b.phase.pending)
    && (b.phase.Claimed? || b.phase.Materialized? ==> forall k :: k in b.seen ==> k in b.claims || k in s.ledger)
    && b.seen <= s.bronze
    && b.claims <= b.seen
  }

  ghost predicate SelectionInv(s: State) {
    && (forall t :: t in s.open && s.open[t].phase.Materialized? && s.open[t].incremental ==>
          s.open[t].selected == s.open[t].claims)
    && (forall t :: t in s.built && s.built[t].incremental ==> s.built[t].selected == s.built[t].claims)
  }

  ghost predicate Inv(s: State) {
    LedgerInv(s) && ExclusionInv(s) && TxidInv(s) && CoverageInv(s) && SelectionInv(s)
  }

  lemma StepKeepsInv(s: State, e: Event)
    requires Inv(s) && Enabled(s, e)
    ensures Inv(Apply(s, e))
  {
    StepKeepsLedger(s, e);
    StepKeepsExclusion(s, e);
    StepKeepsCoverage(s, e);
    StepKeepsSelection(s, e);
  }

  lemma StepKeepsLedger(s: State, e: Event)
    requires Inv(s) && Enabled(s, e)
    ensures LedgerInv(Apply(s, e)) && TxidInv(Apply(s, e))
  {
  }

  lemma StepKeepsSelection(s: State, e: Event)
    requires Inv(s) && Enabled(s, e)
    ensures SelectionInv(Apply(s, e))
  {
  }

  lemma StepKeepsExclusion(s: State, e: Event)
    requires Inv(s) && Enabled(s, e)
    ensures ExclusionInv(Apply(s, e))
  {
  }

  lemma StepKeepsCoverage(s: State, e: Event)
    requires Inv(s) && Enabled(s, e)
    ensures CoverageInv(Apply(s, e))
  {
    var s' := Apply(s, e);
    forall t | t in s'.open ensures BuildCovered(s', s'.open[t]) {
      if t in s.open { assert BuildCovered(s, s.open[t]); }
    }
  }

  lemma {:induction false} RunKeepsInv(s: State, es: seq<Event>)
    requires Inv(s) && CanRun(s, es)
    ensures Inv(Exec(s, es))
    decreases |es|
  {
    if es != [] {
      StepKeepsInv(s, es[0]);
      RunKeepsInv(Apply(s, es[0]), es[1..]);
    }
  }

  // ----- exactness --------------------------------------------------------

  /** In every interleaving, an incremental committed build selected exactly the
      runs the ledger records under its transaction, so no run is selected by two. */
  lemma SelectedExactlyOnce(es: seq<Event>)
    requires CanRun(Init(), es)
    ensures var s := Exec(Init(), es);
      && (forall t, k :: t in s.built && s.built[t].incremental ==>
            (k in s.built[t].selected <==> k in s.ledger && s.ledger[k] == t))
      && (forall t, t', k ::
            (t in s.built && t' in s.built && s.built[t].incremental && s.built[t'].incremental &&
             k in s.built[t].selected && k in s.built[t'].selected) ==> t == t')
  {
    RunKeepsInv(Init(), es);
    var s := Exec(Init(), es);
    forall t, t', k | t in s.built && t' in s.built && s.built[t].incremental && s.built[t'].incremental &&
                      k in s.built[t].selected && k in s.built[t'].selected
      ensures t == t'
    {
      assert s.ledger[k] == t && s.ledger[k] == t';
    }
  }

  /** A build holds on to its snapshot until it commits or aborts. */
  lemma {:induction false} SnapshotIsKept(s: State, t: Txid, es: seq<Event>)
    requires Inv(s) && t in s.open && !s.open[t].phase.Begun? && CanRun(s, es)
    ensures var s' := Exec(s, es);
      && (t in s'.open ==> s'.open[t].seen == s.open[t].seen && !s'.open[t].phase.Begun?)
      && (t in s'.built ==> s'.built[t].seen == s.open[t].seen)
    decreases |es|
  {
    if es != [] {
      var s1 := Apply(s, es[0]);
      StepKeepsInv(s, es[0]);
      if t in s1.open {
        SnapshotIsKept(s1, t, es[1..]);
      } else {
        ClosedStaysClosed(s1, t, es[1..]);
      }
    }
  }

  lemma {:induction false} ClosedStaysClosed(s: State, t: Txid, es: seq<Event>)
    requires t < s.next && t !in s.open && CanRun(s, es)
    ensures var s' := Exec(s, es);
      t !in s'.open && (t in s'.built <==> t in s.built) && (t in s.built ==> s'.built[t] == s.built[t])
    decreases |es|
  {
    if es != [] {
      ClosedStaysClosed(Apply(s, es[0]), t, es[1..]);
    }
  }

  /** Whatever overlaps it, a build that commits leaves no run of its snapshot unclaimed:
      whatever bronze held when the claim INSERT ran is in the ledger from then on. */
  lemma CommittedBuildSkipsNothing(s: State, t: Txid, es: seq<Event>)
    requires Inv(s) && Enabled(s, TakeSnapshot(t))
    requires CanRun(Apply(s, TakeSnapshot(t)), es)
    requires t in Exec(Apply(s, TakeSnapshot(t)), es).built
    ensures InDataset(s.bronze, s.open[t].dataset) <= Exec(Apply(s, TakeSnapshot(t)), es).ledger.Keys
  {
    var s1 := Apply(s, TakeSnapshot(t));
    StepKeepsInv(s, TakeSnapshot(t));
    SnapshotIsKept(s1, t, es);
    RunKeepsInv(s1, es);
  }

  // ----- no run is ever out of reach ---------------------------------------

  /** With no pending row blocked, the claim INSERT takes those not in the ledger and drops the others. */
  lemma {:induction false} InsertEveryPending(s: State, t: Txid) returns (es: seq<Event>)
    requires t in s.open && s.open[t].phase.Claiming?
    requires forall k :: k in s.open[t].phase.pending ==> !Blocked(s, t, k)
    ensures CanRun(s, es)
    ensures var b := s.open[t];
      Exec(s, es) == s.(open := s.open[t := AfterClaims(b, s.ledger.Keys)])
    decreases |s.open[t].phase.pending|
  {
    var b := s.open[t];
    if b.phase.pending == {} {
      es := [];
      assert b.claims + (b.phase.pending - s.ledger.Keys) == b.claims;
      assert AfterClaims(b, s.ledger.Keys) == b;
    } else {
      var k :| k in b.phase.pending;
      var s1 := Apply(s, InsertClaim(t, k));
      OneClaim(s, t, k);
      var rest := InsertEveryPending(s1, t);
      es := [InsertClaim(t, k)] + rest;
    }
  }

  /** The build once its claim INSERT has tried every row, with this much in the ledger. */
  function AfterClaims(b: Build, taken: set<Key>): Build
    requires b.phase.Claiming?
  {
    b.(phase := Claiming({}), claims := b.claims + (b.phase.pending - taken))
  }

  lemma OneClaim(s: State, t: Txid, k: Key)
    requires Enabled(s, InsertClaim(t, k))
    requires forall k' :: k' in s.open[t].phase.pending ==> !Blocked(s, t, k')
    ensures var s1 := Apply(s, InsertClaim(t, k));
      && s1 == s.(open := s.open[t := s1.open[t]]) && s1.open[t].phase.Claiming?
      && s1.open[t].phase.pending == s.open[t].phase.pending - {k}
      && AfterClaims(s1.open[t], s.ledger.Keys) == AfterClaims(s.open[t], s.ledger.Keys)
      && forall k' :: k' in s1.open[t].phase.pending ==> !Blocked(s1, t, k')
  {
    var s1 := Apply(s, InsertClaim(t, k));
    assert AfterClaims(s1.open[t], s.ledger.Keys).claims == AfterClaims(s.open[t], s.ledger.Keys).claims;
    forall k' | Blocked(s1, t, k') ensures Blocked(s, t, k') {
      var t' :| t' in s1.open && t' != t && k' in s1.open[t'].claims;
    }
  }

  /** The state once build t, its claims being those of b, has committed. */
  function Committed(s: State, t: Txid, b: Build): State {
    var selected := if b.incremental then b.claims else InDataset(s.bronze, b.dataset);
    s.(ledger := s.ledger + (map k | k in b.claims :: t), open := s.open - {t},
       built := s.built[t := b.(phase := Materialized, selected := selected)])
  }

  /** A build whose claim INSERT has tried every row can finish and commit. */
  lemma CommitAfterClaims(s: State, t: Txid) returns (es: seq<Event>)
    requires t in s.open && s.open[t].phase == Claiming({}) && s.open[t].claims <= s.bronze
    ensures CanRun(s, es)
    ensures Exec(s, es) == Committed(s, t, s.open[t])
  {
    var b := s.open[t];
    assert s.bronze * b.claims == b.claims;
    var s1 := Apply(s, FinishClaims(t));
    var s2 := Apply(s1, SelectRows(t));
    assert s2.open - {t} == s.open - {t};
    ExecSnoc(s, [], FinishClaims(t));
    ExecSnoc(s, [] + [FinishClaims(t)], SelectRows(t));
    ExecSnoc(s, [] + [FinishClaims(t)] + [SelectRows(t)], CommitBuild(t));
    es := [] + [FinishClaims(t)] + [SelectRows(t)] + [CommitBuild(t)];
  }

  /** A build running alone claims exactly the runs not yet claimed, and selects them if it is
      incremental, or everything in bronze if it is not. */
  lemma SoloBuildClaimsEveryUnclaimedRun(s: State, dataset: string, incremental: bool) returns (es: seq<Event>)
    requires Inv(s) && s.open == map[]
    ensures CanRun(s, es)
    ensures var s' := Exec(s, es); var unclaimed := InDataset(s.bronze, dataset) - s.ledger.Keys;
      && s'.bronze == s.bronze && s'.next == s.next + 1
      && s.next in s'.built
      && IsBuildOf(s'.built[s.next], dataset, incremental)
      && s'.built[s.next].claims == unclaimed
      && s'.built[s.next].selected == (if incremental then unclaimed else InDataset(s.bronze, dataset))
      && s'.ledger == s.ledger + (map k | k in unclaimed :: s.next)
      && s'.open == map[] && forall t :: t in s.built && t != s.next ==> t in s'.built && s'.built[t] == s.built[t]
  {
    var t := s.next;
    var s1 := Apply(s, BeginBuild(dataset, incremental));
    var s2 := Apply(s1, TakeSnapshot(t));
    var inserts := InsertEveryPending(s2, t);
    assert AfterClaims(s2.open[t], s.ledger.Keys).claims == InDataset(s.bronze, dataset) - s.ledger.Keys;
    var commit := CommitAfterClaims(Exec(s2, inserts), t);
    ExecConcat(s2, inserts, commit);
    var tail := inserts + commit;
    es := [BeginBuild(dataset, incremental), TakeSnapshot(t)] + tail;
    assert es[1..] == [TakeSnapshot(t)] + tail && es[1..][1..] == tail;
  }

  predicate IsBuildOf(b: Build, dataset: string, incremental: bool) {
    b.dataset == dataset && b.incremental == incremental
  }

  lemma {:induction false} AbortEveryOpenBuild(s: State) returns (es: seq<Event>)
    ensures CanRun(s, es) && Exec(s, es) == s.(open := map[])
    decreases |s.open|
  {
    if s.open == map[] {
      es := [];
    } else {
      var t :| t in s.open;
      var s1 := Apply(s, AbortBuild(t));
      assert |s1.open| < |s.open| by {
        assert s1.open.Keys == s.open.Keys - {t};
        assert |s1.open| == |s1.open.Keys| && |s.open| == |s.open.Keys|;
      }
      var rest := AbortEveryOpenBuild(s1);
      es := [AbortBuild(t)] + rest;
    }
  }

  /** Safety over whole runs: no reachable state has lost a run. Whatever has
      committed, overlapped or rolled back, every committed bronze run is in the
      ledger already or a continuation claims it. */
  lemma NoRunIsEverSkippedForever(past: seq<Event>, key: Key) returns (future: seq<Event>)
    requires CanRun(Init(), past) && key in Exec(Init(), past).bronze
    ensures CanRun(Exec(Init(), past), future)
    ensures key in Exec(Exec(Init(), past), future).ledger
  {
    var s := Exec(Init(), past);
    RunKeepsInv(Init(), past);
    var aborts := AbortEveryOpenBuild(s);
    RunKeepsInv(s, aborts);
    var build := SoloBuildClaimsEveryUnclaimedRun(Exec(s, aborts), key.dataset, true);
    ExecConcat(s, aborts, build);
    future := aborts + build;
  }

  /** A rolled-back build takes its claims with it: the runs are unclaimed again. */
  lemma RollbackReturnsClaims(es: seq<Event>, t: Txid)
    requires CanRun(Init(), es) && t in Exec(Init(), es).open
    ensures var s := Exec(Init(), es); var s' := Apply(s, AbortBuild(t));
      && s'.ledger == s.ledger
      && forall k :: k in s.open[t].claims ==> k in s'.bronze && k !in s'.ledger && !Blocked(s', s'.next, k)
  {
    RunKeepsInv(Init(), es);
  }

  // ----- builds overlap ---------------------------------------------------------

  /** What a build may do depends on that build alone, whatever else is open: only the row of
      a claim INSERT ever waits for another transaction. */
  lemma OnlyAClaimWaits(s: State, s': State, t: Txid, e: Event)
    requires t in s.open && t in s'.open && s.open[t] == s'.open[t]
    requires e in {TakeSnapshot(t), FinishClaims(t), SelectRows(t), CommitBuild(t), AbortBuild(t)}
    ensures Enabled(s, e) <==> Enabled(s', e)
    ensures Enabled(s, AbortBuild(t))
  {
  }

  /** In every reachable state a build that has begun can run its claim statement. */
  lemma EveryBegunBuildCanTakeItsSnapshot(es: seq<Event>, t: Txid)
    requires CanRun(Init(), es) && t in Exec(Init(), es).open && Exec(Init(), es).open[t].phase.Begun?
    ensures Enabled(Exec(Init(), es), TakeSnapshot(t))
  {
    RunKeepsInv(Init(), es);
  }

  /** Two open builds of the run's dataset whose snapshots both show it, and which have claimed
      nothing yet. */
  ghost predicate Contested(s: State, t: Txid, i: bool, t': Txid, i': bool, key: Key) {
    && t != t' && t in s.open && t' in s.open
    && IsBuildOf(s.open[t], key.dataset, i) && IsBuildOf(s.open[t'], key.dataset, i')
    && CouldClaim(s.open[t], key) && CouldClaim(s.open[t'], key)
  }

  predicate CouldClaim(b: Build, key: Key) {
    b.phase.Claiming? && key in b.phase.pending && key in b.seen && b.claims == {}
  }

  function ClaimingBuild(s: State, dataset: string, incremental: bool): Build {
    var seen := InDataset(s.bronze, dataset);
    Build(dataset, incremental, Claiming(seen - s.ledger.Keys), seen, {}, {})
  }

  /** Two builds begin and take their snapshots before either claims. */
  lemma TwoSnapshots(s: State, dataset: string, i: bool, i': bool) returns (es: seq<Event>)
    requires s.open == map[]
    ensures CanRun(s, es)
    ensures Exec(s, es) == s.(open := map[
      s.next := ClaimingBuild(s, dataset, i), s.next + 1 := ClaimingBuild(s, dataset, i')], next := s.next + 2)
  {
    var t, t' := s.next, s.next + 1;
    var s1 := Apply(s, BeginBuild(dataset, i));
    var s2 := Apply(s1, BeginBuild(dataset, i'));
    var s3 := Apply(s2, TakeSnapshot(t));
    var s4 := Apply(s3, TakeSnapshot(t'));
    var e1, e2, e3, e4 := BeginBuild(dataset, i), BeginBuild(dataset, i'), TakeSnapshot(t), TakeSnapshot(t');
    ExecSnoc(s, [], e1);
    ExecSnoc(s, [] + [e1], e2);
    ExecSnoc(s, [] + [e1] + [e2], e3);
    ExecSnoc(s, [] + [e1] + [e2] + [e3], e4);
    es := [] + [e1] + [e2] + [e3] + [e4];
    assert s4.open == map[t := ClaimingBuild(s, dataset, i), t' := ClaimingBuild(s, dataset, i')];
  }

  /** A build none of whose rows is blocked tries them all and commits. */
  lemma TryAllAndCommit(s: State, t: Txid) returns (es: seq<Event>)
    requires Inv(s) && t in s.open && s.open[t].phase.Claiming? && forall k :: !Blocked(s, t, k)
    ensures CanRun(s, es)
    ensures Exec(s, es) == Committed(s, t, AfterClaims(s.open[t], s.ledger.Keys))
  {
    var inserts := InsertEveryPending(s, t);
    var s1 := Exec(s, inserts);
    assert BuildCovered(s, s.open[t]);
    var commit := CommitAfterClaims(s1, t);
    ExecConcat(s, inserts, commit);
    es := inserts + commit;
    assert s1.open - {t} == s.open - {t};
  }

  /** With only a build that has claimed nothing beside it, the first one closes. */
  lemma FirstCloses(s: State, t: Txid, t': Txid, key: Key, commits: bool) returns (es: seq<Event>)
    requires Inv(s) && s.open.Keys == {t, t'} && t != t' && s.open[t].phase.Claiming?
    requires key in s.open[t].claims && s.open[t'].claims == {}
    ensures CanRun(s, es)
    ensures var s' := Exec(s, es); s'.open == map[t' := s.open[t']] && (commits <==> t in s'.built)
    ensures var s' := Exec(s, es); commits ==> key in s'.ledger && s'.ledger[key] == t
    ensures var s' := Exec(s, es); !commits ==> key !in s'.ledger
  {
    assert s.open - {t} == map[t' := s.open[t']];
    if commits {
      forall k ensures !Blocked(s, t, k) {
        assert forall u :: u in s.open && u != t ==> u == t';
      }
      es := TryAllAndCommit(s, t);
    } else {
      es := FirstAborts(s, t);
    }
  }

  lemma FirstAborts(s: State, t: Txid) returns (es: seq<Event>)
    requires t in s.open
    ensures CanRun(s, es) && Exec(s, es) == s.(open := s.open - {t})
  {
    ExecSnoc(s, [], AbortBuild(t));
    es := [] + [AbortBuild(t)];
    assert CanRun(s, []) && Exec(s, []) == s;
  }

  /** Both builds see the run; one claims it and the other waits; when the one commits the
      other's row is dropped, and when it aborts the other claims the run. */
  ghost predicate ContestIsDecided(s: State, opening: seq<Event>, closing: seq<Event>, ending: seq<Event>,
                                   t: Txid, i: bool, t': Txid, i': bool, key: Key, commits: bool) {
    && CanRun(s, opening) && Contested(Exec(s, opening), t, i, t', i', key)
    && Waits(Exec(s, opening), closing, t, t', key)
    && DecidedBy(Exec(Apply(Exec(s, opening), InsertClaim(t, key)), closing), ending, t, t', i', key, commits)
  }

  /** Either could claim the run; once the first has, the second cannot until the first closes. */
  ghost predicate Waits(s: State, closing: seq<Event>, t: Txid, t': Txid, key: Key) {
    && Enabled(s, InsertClaim(t, key)) && Enabled(s, InsertClaim(t', key))
    && var held := Apply(s, InsertClaim(t, key));
    && t in held.open && key in held.open[t].claims
    && Blocked(held, t', key) && !Enabled(held, InsertClaim(t', key))
    && CanRun(held, closing)
  }

  /** The first has closed; the second goes on and commits. */
  ghost predicate DecidedBy(s: State, ending: seq<Event>, t: Txid, t': Txid, i': bool, key: Key, commits: bool) {
    && t !in s.open && (commits <==> t in s.built) && (commits <==> key in s.ledger)
    && Enabled(s, InsertClaim(t', key))
    && var tried := Apply(s, InsertClaim(t', key));
    && t' in tried.open && (key in tried.open[t'].claims <==> !commits)
    && CanRun(tried, ending)
    && var end := Exec(tried, ending);
    && t' in end.built && (key in end.built[t'].claims <==> !commits)
    && (i' ==> (key in end.built[t'].selected <==> !commits))
    && key in end.ledger && end.ledger[key] == if commits then t else t'
  }

  /** Whatever has happened before, every run not yet in the ledger can be contested by two
      builds of any kinds, the earlier or the later one claiming first, committing or aborting. */
  lemma EveryRunCanBeContested(past: seq<Event>, key: Key, i: bool, i': bool, earlierFirst: bool, commits: bool)
    returns (opening: seq<Event>, closing: seq<Event>, ending: seq<Event>, t: Txid, t': Txid)
    requires CanRun(Init(), past) && key in Exec(Init(), past).bronze && key !in Exec(Init(), past).ledger
    ensures ContestIsDecided(Exec(Init(), past), opening, closing, ending, t, i, t', i', key, commits)
    ensures t < t' <==> earlierFirst
  {
    var s := Exec(Init(), past);
    RunKeepsInv(Init(), past);
    t := if earlierFirst then s.next else s.next + 1;
    t' := if earlierFirst then s.next + 1 else s.next;
    opening := OpenBoth(s, key, t, i, t', i');
    RunKeepsInv(s, opening);
    closing, ending := DecideContest(Exec(s, opening), t, i, t', i', key, commits);
  }

  lemma OpenBoth(s: State, key: Key, t: Txid, i: bool, t': Txid, i': bool) returns (es: seq<Event>)
    requires Inv(s) && key in s.bronze && key !in s.ledger && {t, t'} == {s.next, s.next + 1}
    ensures CanRun(s, es)
    ensures var s' := Exec(s, es);
      && s'.open.Keys == {t, t'} && s'.ledger == s.ledger && Contested(s', t, i, t', i', key)
      && s'.open[t] == ClaimingBuild(s, key.dataset, i) && s'.open[t'] == ClaimingBuild(s, key.dataset, i')
  {
    assert t == s.next || t == s.next + 1;
    assert t' == s.next || t' == s.next + 1;
    assert t != t' by {
      assert s.next in {t, t'} && s.next + 1 in {t, t'};
    }
    var aborts := AbortEveryOpenBuild(s);
    var clear := Exec(s, aborts);
    var snapshots := TwoSnapshots(clear, key.dataset, if t < t' then i else i', if t < t' then i' else i);
    ExecConcat(s, aborts, snapshots);
    es := aborts + snapshots;
  }

  lemma DecideContest(s: State, t: Txid, i: bool, t': Txid, i': bool, key: Key, commits: bool)
    returns (closing: seq<Event>, ending: seq<Event>)
    requires Inv(s) && s.open.Keys == {t, t'} && Contested(s, t, i, t', i', key) && key !in s.ledger
    ensures Waits(s, closing, t, t', key)
    ensures DecidedBy(Exec(Apply(s, InsertClaim(t, key)), closing), ending, t, t', i', key, commits)
  {
    var held := Apply(s, InsertClaim(t, key));
    ClaimBlocks(s, t, i, t', i', key);
    StepKeepsInv(s, InsertClaim(t, key));
    closing := FirstCloses(held, t, t', key, commits);
    RunKeepsInv(held, closing);
    ending := SecondGoesOn(Exec(held, closing), t, t', i', key, commits);
  }

  /** Neither is blocked before, and the other one is after. */
  lemma ClaimBlocks(s: State, t: Txid, i: bool, t': Txid, i': bool, key: Key)
    requires s.open.Keys == {t, t'} && Contested(s, t, i, t', i', key) && key !in s.ledger
    ensures Enabled(s, InsertClaim(t, key)) && Enabled(s, InsertClaim(t', key))
    ensures var held := Apply(s, InsertClaim(t, key));
      && held.open.Keys == {t, t'} && held.open[t].phase.Claiming? && key in held.open[t].claims
      && held.open[t'] == s.open[t']
      && Blocked(held, t', key)
  {
    var held := Apply(s, InsertClaim(t, key));
    assert t in held.open && t != t' && key in held.open[t].claims;
  }

  lemma SecondGoesOn(s: State, t: Txid, t': Txid, i': bool, key: Key, commits: bool) returns (ending: seq<Event>)
    requires Inv(s) && s.open.Keys == {t'} && t != t'
    requires CouldClaim(s.open[t'], key) && s.open[t'].incremental == i'
    requires (commits <==> t in s.built) && (commits <==> key in s.ledger)
    requires commits ==> s.ledger[key] == t
    ensures DecidedBy(s, ending, t, t', i', key, commits)
  {
    forall k ensures !Blocked(s, t', k) {
    }
    var tried := Apply(s, InsertClaim(t', key));
    StepKeepsInv(s, InsertClaim(t', key));
    forall k ensures !Blocked(tried, t', k) {
    }
    ending := TryAllAndCommit(tried, t');
  }

  /** Each of two builds holds a run that the other one is still to try. */
  ghost predicate Deadlocked(s: State, t: Txid, t': Txid, k: Key, k': Key) {
    && t in s.open && t' in s.open && s.open[t].phase.Claiming? && s.open[t'].phase.Claiming?
    && k in s.open[t].claims && k' in s.open[t'].claims
    && k' in s.open[t].phase.pending && k in s.open[t'].phase.pending
    && !Enabled(s, InsertClaim(t, k')) && !Enabled(s, InsertClaim(t', k))
  }

  /** The claim statement does not order its rows, so any two runs not yet in the ledger can
      deadlock two builds. */
  lemma TwoBuildsCanDeadlock(past: seq<Event>, k: Key, k': Key, i: bool, i': bool)
    returns (es: seq<Event>, t: Txid, t': Txid)
    requires CanRun(Init(), past) && k != k' && k.dataset == k'.dataset
    requires {k, k'} <= Exec(Init(), past).bronze && {k, k'} !! Exec(Init(), past).ledger.Keys
    ensures CanRun(Exec(Init(), past), es) && Deadlocked(Exec(Exec(Init(), past), es), t, t', k, k')
  {
    var s := Exec(Init(), past);
    RunKeepsInv(Init(), past);
    t, t' := s.next, s.next + 1;
    var opening := OpenBoth(s, k, t, i, t', i');
    assert k in {k, k'} && k' in {k, k'};
    DeadlockTwo(Exec(s, opening), t, i, t', i', k, k');
    var s1 := Apply(Exec(s, opening), InsertClaim(t, k));
    ExecSnoc(s, opening, InsertClaim(t, k));
    ExecSnoc(s, opening + [InsertClaim(t, k)], InsertClaim(t', k'));
    es := opening + [InsertClaim(t, k)] + [InsertClaim(t', k')];
  }

  lemma DeadlockTwo(s: State, t: Txid, i: bool, t': Txid, i': bool, k: Key, k': Key)
    requires s.open.Keys == {t, t'} && t != t' && k != k' && {k, k'} !! s.ledger.Keys
    requires CouldClaim(s.open[t], k) && CouldClaim(s.open[t], k') && CouldClaim(s.open[t'], k) && CouldClaim(s.open[t'], k')
    ensures Enabled(s, InsertClaim(t, k)) && Enabled(Apply(s, InsertClaim(t, k)), InsertClaim(t', k'))
    ensures Deadlocked(Apply(Apply(s, InsertClaim(t, k)), InsertClaim(t', k')), t, t', k, k')
  {
    assert k in {k, k'} && k' in {k, k'};
    var s1 := Apply(s, InsertClaim(t, k));
    var s2 := Apply(s1, InsertClaim(t', k'));
    assert t in s2.open && k in s2.open[t].claims && t' in s2.open && k' in s2.open[t'].claims;
  }

  /** The build takes its rows in ascending order. */
  ghost predicate Ascending(b: Build) {
    b.phase.Claiming? ==> forall c, p :: c in b.claims && p in b.phase.pending ==> c.run < p.run
  }

  predicate IsNext(b: Build, key: Key) {
    b.phase.Claiming? && key in b.phase.pending && forall p :: p in b.phase.pending ==> key.run <= p.run
  }

  /** What a build does next, other than aborting. */
  predicate IsProgress(s: State, t: Txid, e: Event)
    requires t in s.open
  {
    e == TakeSnapshot(t) || e == FinishClaims(t) || e == SelectRows(t) || e == CommitBuild(t) ||
    (e.InsertClaim? && e.t == t && IsNext(s.open[t], e.key))
  }

  ghost predicate CanProgress(s: State, t: Txid)
    requires t in s.open
  {
    exists e :: IsProgress(s, t, e) && Enabled(s, e)
  }

  /** With an order there is no deadlock: whatever is open, some build can go on. */
  lemma AscendingClaimsNeverDeadlock(s: State)
    requires Inv(s) && s.open != map[] && forall t :: t in s.open ==> Ascending(s.open[t])
    ensures exists t :: t in s.open && CanProgress(s, t)
  {
    if forall t :: t in s.open ==> !CanProgress(s, t) {
      var t :| t in s.open;
      var key := StuckWaits(s, t);
      WaitingGoesUp(s, t, key, s.bronze);
    }
  }

  /** A build that cannot go on waits for its next row, which another build has claimed. */
  lemma StuckWaits(s: State, t: Txid) returns (key: Key)
    requires t in s.open
    ensures !CanProgress(s, t) ==> IsNext(s.open[t], key) && Blocked(s, t, key)
  {
    key := Key("", 0);
    var e := AbortBuild(t);
    match s.open[t].phase {
      case Begun => e := TakeSnapshot(t);
      case Claimed => e := SelectRows(t);
      case Materialized => e := CommitBuild(t);
      case Claiming(pending) =>
        if pending == {} {
          e := FinishClaims(t);
        } else {
          key := LeastOf(pending);
          e := InsertClaim(t, key);
        }
    }
    assert IsProgress(s, t, e);
  }

  lemma {:induction false} LeastOf(keys: set<Key>) returns (least: Key)
    requires keys != {}
    ensures least in keys && forall k :: k in keys ==> least.run <= k.run
    decreases |keys|
  {
    least :| least in keys;
    var rest := keys - {least};
    if rest != {} {
      var other := LeastOf(rest);
      if other.run < least.run {
        least := other;
      }
    }
  }

  /** Whoever holds the row waits for a higher one, and the runs are finitely many. */
  lemma {:induction false} WaitingGoesUp(s: State, t: Txid, key: Key, above: set<Key>)
    requires Inv(s) && forall u :: u in s.open ==> Ascending(s.open[u]) && !CanProgress(s, u)
    requires t in s.open && IsNext(s.open[t], key) && Blocked(s, t, key)
    requires forall k :: k in s.bronze && k.run >= key.run ==> k in above
    ensures false
    decreases |above|
  {
    var u :| u in s.open && u != t && key in s.open[u].claims;
    var next := StuckWaits(s, u);
    assert BuildCovered(s, s.open[u]);
    assert key in above;
    WaitingGoesUp(s, u, next, above - {key});
  }

  // ----- the filter is what makes it exact ----------------------------------

  /** Two committed builds of the run's dataset, of the given kinds and begun in this order,
      have both selected it. */
  ghost predicate Shared(s: State, key: Key, t: Txid, i: bool, t': Txid, i': bool) {
    && t < t' && t in s.built && t' in s.built
    && IsBuildOf(s.built[t], key.dataset, i) && IsBuildOf(s.built[t'], key.dataset, i')
    && key in s.built[t].selected && key in s.built[t'].selected
  }

  /** No schedule lets a build of kind i and a later one of kind i' select the run both. */
  ghost predicate NeverShared(key: Key, i: bool, i': bool) {
    forall es, t, t' | CanRun(Init(), es) :: !Shared(Exec(Init(), es), key, t, i, t', i')
  }

  /** Whatever the run, two builds never both select it if and only if both are incremental.
      The first build of a model is not. */
  lemma NeverSharedExactlyWhen(key: Key, i: bool, i': bool)
    ensures NeverShared(key, i, i') <==> i && i'
  {
    if i && i' {
      forall es, t, t' | CanRun(Init(), es) ensures !Shared(Exec(Init(), es), key, t, i, t', i') {
        SelectedExactlyOnce(es);
      }
    } else {
      var first;
      if i {
        first := SelectedByAnIncrementalBuild(key);
      } else {
        first := SelectedAfterTheClaim(key);
      }
      var es := SelectedAgain(first, key, i, i');
    }
  }

  /** One build, of kind i, has run and selected the run, and claimed it if it is incremental. */
  ghost predicate SelectedOnce(s: State, key: Key, i: bool) {
    && s.open == map[] && s.next == 1 && 0 in s.built && key in s.bronze && (i || key !in s.ledger)
    && IsBuildOf(s.built[0], key.dataset, i) && key in s.built[0].selected
  }

  lemma SelectedByAnIncrementalBuild(key: Key) returns (es: seq<Event>)
    ensures CanRun(Init(), es) && SelectedOnce(Exec(Init(), es), key, true)
  {
    var before := Then([], CommitBronze(key));
    RunKeepsInv(Init(), before);
    var s := Exec(Init(), before);
    var build := SoloBuildClaimsEveryUnclaimedRun(s, key.dataset, true);
    ExecConcat(Init(), before, build);
    es := before + build;
  }

  /** The run commits after the build's claim INSERT and before its SELECT. */
  lemma SelectedAfterTheClaim(key: Key) returns (es: seq<Event>)
    ensures CanRun(Init(), es) && SelectedOnce(Exec(Init(), es), key, false)
  {
    es := Then([], BeginBuild(key.dataset, false));
    es := Then(es, TakeSnapshot(0));
    assert Exec(Init(), es).open[0].phase.pending == {};
    es := Then(es, FinishClaims(0));
    es := Then(es, CommitBronze(key));
    es := Then(es, SelectRows(0));
    es := Then(es, CommitBuild(0));
  }

  lemma SelectedAgain(first: seq<Event>, key: Key, i: bool, i': bool) returns (es: seq<Event>)
    requires CanRun(Init(), first) && SelectedOnce(Exec(Init(), first), key, i) && !(i && i')
    ensures CanRun(Init(), es) && Shared(Exec(Init(), es), key, 0, i, 1, i')
  {
    var s := Exec(Init(), first);
    RunKeepsInv(Init(), first);
    var second := SoloBuildClaimsEveryUnclaimedRun(s, key.dataset, i');
    ExecConcat(Init(), first, second);
    es := first + second;
  }

  /** Exactly when a build's selection is its claim set. */
  lemma SelectionMatchesClaimsExactlyWhen(es: seq<Event>, t: Txid)
    requires CanRun(Init(), es) && Enabled(Exec(Init(), es), SelectRows(t))
    ensures var s := Exec(Init(), es); var b := s.open[t];
      Apply(s, SelectRows(t)).open[t].selected == b.claims <==>
        b.incremental || (forall k :: k in s.bronze && k.dataset == b.dataset ==> k in b.claims)
  {
    RunKeepsInv(Init(), es);
    var s := Exec(Init(), es);
    assert s.bronze * s.open[t].claims == s.open[t].claims;
  }
}
