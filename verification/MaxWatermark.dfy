/**
  The filter the claim ledger replaced: an incremental build selected the bronze
  runs above the highest run id already built. A run that commits after a higher
  one has been built is below the floor for good.
 */
module MaxWatermark {

  datatype State = State(committed: set<int>, built: set<int>)

  datatype Event = Commit(run: int) | Build

  predicate AboveFloor(built: set<int>, run: int) {
    forall b :: b in built ==> b < run
  }

  function Apply(s: State, e: Event): State {
    match e
    case Commit(run) => s.(committed := s.committed + {run})
    case Build => s.(built := s.built + set r | r in s.committed && AboveFloor(s.built, r))
  }

  function Exec(s: State, es: seq<Event>): State
    decreases |es|
  {
    if es == [] then s else Exec(Apply(s, es[0]), es[1..])
  }

  /** Committed, not built, and below the floor. */
  ghost predicate Skipped(s: State, run: int) {
    run in s.committed && run !in s.built && !AboveFloor(s.built, run)
  }

  /** A committed run is built, or the very next build takes it, or it is skipped. */
  lemma NextBuildTakesItUnlessSkipped(s: State, run: int)
    requires run in s.committed
    ensures run in Apply(s, Build).built <==> !Skipped(s, run)
  {
  }

  /** Skipped once is skipped in every continuation. */
  lemma {:induction false} SkippedForever(s: State, run: int, es: seq<Event>)
    requires Skipped(s, run)
    ensures Skipped(Exec(s, es), run)
    decreases |es|
  {
    if es != [] {
      SkippedForever(Apply(s, es[0]), run, es[1..]);
    }
  }

  // ----- when the old filter was safe ---------------------------------------

  function Commits(es: seq<Event>): seq<int> {
    if es == [] then []
    else (if es[0].Commit? then [es[0].run] else []) + Commits(es[1..])
  }

  ghost predicate Ascending(order: seq<int>) {
    forall i, j :: 0 <= i < j < |order| ==> order[i] <= order[j]
  }

  /** However builds are interleaved with these commits, no run ends up skipped. */
  ghost predicate SafeForEverySchedule(order: seq<int>) {
    forall es: seq<Event>, run :: Commits(es) == order ==> !Skipped(Exec(State({}, {}), es), run)
  }

  /** Nothing unbuilt lies below the floor, and nothing still to commit lies below what has committed. */
  ghost predicate InOrder(s: State, rest: seq<int>) {
    && s.built <= s.committed
    && (forall c, b :: c in s.committed && c !in s.built && b in s.built ==> b < c)
    && (forall i, c :: 0 <= i < |rest| && c in s.committed ==> c <= rest[i])
  }

  lemma {:induction false} InOrderNeverSkips(s: State, es: seq<Event>)
    requires InOrder(s, Commits(es)) && Ascending(Commits(es))
    ensures forall run :: !Skipped(Exec(s, es), run)
    decreases |es|
  {
    if es != [] {
      var s1 := Apply(s, es[0]);
      var rest := Commits(es[1..]);
      if es[0].Commit? {
        assert Commits(es) == [es[0].run] + rest && Commits(es)[0] == es[0].run;
        assert forall i :: 0 <= i < |rest| ==> rest[i] == Commits(es)[i + 1];
      } else {
        assert Commits(es) == rest;
      }
      InOrderNeverSkips(s1, es[1..]);
    }
  }

  function CommitEach(order: seq<int>): seq<Event> {
    seq(|order|, i requires 0 <= i < |order| => Commit(order[i]))
  }

  function Elements(order: seq<int>): set<int> {
    set r | r in order
  }

  lemma {:induction false} CommitEachCommits(order: seq<int>, s: State)
    ensures Commits(CommitEach(order)) == order
    ensures Exec(s, CommitEach(order)) == s.(committed := s.committed + Elements(order))
  {
    if order != [] {
      var es := CommitEach(order);
      assert es[1..] == CommitEach(order[1..]);
      CommitEachCommits(order[1..], Apply(s, es[0]));
      assert Elements(order) == {order[0]} + Elements(order[1..]);
    }
  }

  lemma {:induction false} ExecConcat(s: State, es: seq<Event>, fs: seq<Event>)
    ensures Exec(s, es + fs) == Exec(Exec(s, es), fs)
    decreases |es|
  {
    if es == [] {
      assert es + fs == fs;
    } else {
      assert (es + fs)[0] == es[0] && (es + fs)[1..] == es[1..] + fs;
      ExecConcat(Apply(s, es[0]), es[1..], fs);
    }
  }

  lemma {:induction false} CommitsConcat(es: seq<Event>, fs: seq<Event>)
    ensures Commits(es + fs) == Commits(es) + Commits(fs)
  {
    if es == [] {
      assert es + fs == fs;
    } else {
      assert (es + fs)[0] == es[0] && (es + fs)[1..] == es[1..] + fs;
      CommitsConcat(es[1..], fs);
    }
  }

  function BuildBetween(first: seq<int>, last: seq<int>): seq<Event> {
    CommitEach(first) + ([Build] + CommitEach(last))
  }

  lemma BuildBetweenCommits(first: seq<int>, last: seq<int>)
    ensures Commits(BuildBetween(first, last)) == first + last
  {
    CommitEachCommits(first, State({}, {}));
    CommitEachCommits(last, State({}, {}));
    CommitsConcat(CommitEach(first), [Build] + CommitEach(last));
    assert ([Build] + CommitEach(last))[1..] == CommitEach(last);
  }

  lemma BuildBetweenRuns(first: seq<int>, last: seq<int>)
    ensures Exec(State({}, {}), BuildBetween(first, last)) == State(Elements(first) + Elements(last), Elements(first))
  {
    var mid := State(Elements(first), {});
    var floor := State(Elements(first), Elements(first));
    CommitEachCommits(first, State({}, {}));
    ExecConcat(State({}, {}), CommitEach(first), [Build] + CommitEach(last));
    assert Apply(mid, Build) == floor;
    assert ([Build] + CommitEach(last))[1..] == CommitEach(last);
    CommitEachCommits(last, floor);
  }

  /** A build between two out-of-order commits skips the lower one. */
  lemma OutOfOrderSkips(order: seq<int>, i: nat, j: nat) returns (es: seq<Event>)
    requires i < j < |order| && order[j] < order[i] && order[j] !in order[..j]
    ensures Commits(es) == order && Skipped(Exec(State({}, {}), es), order[j])
  {
    var first, last := order[..j], order[j..];
    BuildBetweenCommits(first, last);
    BuildBetweenRuns(first, last);
    es := BuildBetween(first, last);
    assert first + last == order;
    assert first[i] in Elements(first) && last[0] in Elements(last);
  }

  /** For distinct run ids: no schedule of builds loses a run if and only if the runs
      commit in id order. */
  lemma SafeExactlyWhenCommitsAscend(order: seq<int>)
    requires forall i, j :: 0 <= i < j < |order| ==> order[i] != order[j]
    ensures SafeForEverySchedule(order) <==> Ascending(order)
  {
    if Ascending(order) {
      forall es: seq<Event>, run | Commits(es) == order
        ensures !Skipped(Exec(State({}, {}), es), run)
      {
        InOrderNeverSkips(State({}, {}), es);
      }
    } else {
      var i, j :| 0 <= i < j < |order| && order[j] < order[i];
      assert order[j] !in order[..j];
      var es := OutOfOrderSkips(order, i, j);
    }
  }
}
