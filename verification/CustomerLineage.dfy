/**
  The current-version lineage view: its joins, and how many rows it returns for a current
  customer row given the audit rows that dbt builds leave behind.
 */
module CustomerLineage {
  import opened DecimalRendering
  import opened Options
  import L = ClaimLedger

  datatype Customer = Customer(id: nat, customer: int, run: int, file: nat, batch: nat, isCurrent: bool)

  datatype Run = Run(config: nat, schema: Option<nat>)

  /** The id range is null when a build found nothing new. */
  datatype Audit = Audit(id: nat, model: string, range: Option<(int, int)>)

  datatype Silver = Silver(customer: string, loadedAt: int)

  datatype Database = Database(
    customers: seq<Customer>,
    runs: map<int, Run>,
    files: set<nat>,
    batches: set<nat>,
    configs: set<nat>,
    schemas: set<nat>,
    silver: seq<Silver>,
    audits: seq<Audit>)

  datatype ViewRow = ViewRow(customer: nat, schema: Option<nat>, silver: Option<Silver>, audit: Option<Audit>)

  /** `c._run_id BETWEEN da.min_run_id AND da.max_run_id`, unknown on a null range. */
  predicate Covers(a: Audit, run: int) {
    a.model == "customers" && a.range.Some? && a.range.value.0 <= run <= a.range.value.1
  }

  function Covering(audits: seq<Audit>, run: int): seq<Audit> {
    if audits == [] then []
    else Covering(audits[..|audits| - 1], run) +
         if Covers(audits[|audits| - 1], run) then [audits[|audits| - 1]] else []
  }

  function InSilver(silver: seq<Silver>, key: string): seq<Silver> {
    if silver == [] then []
    else InSilver(silver[..|silver| - 1], key) +
         if silver[|silver| - 1].customer == key then [silver[|silver| - 1]] else []
  }

  /** A left join keeps the row once when nothing matches. */
  function LeftJoined<T>(matches: seq<T>): (r: seq<Option<T>>)
    ensures |r| == if matches == [] then 1 else |matches|
  {
    if matches == [] then [None] else seq(|matches|, i requires 0 <= i < |matches| => Some(matches[i]))
  }

  /** The inner joins: every referenced row is there. */
  predicate InnerJoins(db: Database, c: Customer) {
    && c.run in db.runs && c.file in db.files && c.batch in db.batches
    && db.runs[c.run].config in db.configs
  }

  function Pairs<S, T>(a: seq<S>, b: seq<T>): seq<(S, T)> {
    if a == [] then []
    else Pairs(a[..|a| - 1], b) + seq(|b|, i requires 0 <= i < |b| => (a[|a| - 1], b[i]))
  }

  /** The view's rows for one customer row. */
  function RowsOf(db: Database, c: Customer): seq<ViewRow> {
    if !c.isCurrent || !InnerJoins(db, c) then []
    else
      var schema := db.runs[c.run].schema;
      var known := if schema.Some? && schema.value in db.schemas then schema else None;
      var pairs := Pairs(LeftJoined(InSilver(db.silver, Signed(c.customer))), LeftJoined(Covering(db.audits, c.run)));
      seq(|pairs|, i requires 0 <= i < |pairs| => ViewRow(c.id, known, pairs[i].0, pairs[i].1))
  }

  function View(db: Database): seq<ViewRow> {
    ViewTo(db, |db.customers|)
  }

  function ViewTo(db: Database, n: nat): seq<ViewRow>
    requires n <= |db.customers|
  {
    if n == 0 then [] else ViewTo(db, n - 1) + RowsOf(db, db.customers[n - 1])
  }

  /** The unique constraint on silver's customer id. */
  predicate UniqueSilver(db: Database) {
    forall i, j :: 0 <= i < j < |db.silver| ==> db.silver[i].customer != db.silver[j].customer
  }

  lemma {:induction false} PairCount<S, T>(a: seq<S>, b: seq<T>)
    ensures |Pairs(a, b)| == |a| * |b|
  {
    if a != [] {
      PairCount(a[..|a| - 1], b);
      assert |a| * |b| == (|a| - 1) * |b| + |b|;
    }
  }

  lemma {:induction false} AtMostOneInSilver(silver: seq<Silver>, key: string)
    requires forall i, j :: 0 <= i < j < |silver| ==> silver[i].customer != silver[j].customer
    ensures |InSilver(silver, key)| <= 1
    ensures (forall i :: 0 <= i < |silver| ==> silver[i].customer != key) ==> InSilver(silver, key) == []
  {
    if silver != [] {
      AtMostOneInSilver(silver[..|silver| - 1], key);
    }
  }

  function Max(a: nat, b: nat): nat {
    if a < b then b else a
  }

  /** A current row comes back once for every audit row whose range covers its run, and once
      when there is none. */
  lemma RowsPerCurrentVersion(db: Database, c: Customer)
    requires UniqueSilver(db) && c.isCurrent && InnerJoins(db, c)
    ensures |RowsOf(db, c)| == Max(1, |Covering(db.audits, c.run)|)
    ensures |RowsOf(db, c)| == 1 <==> |Covering(db.audits, c.run)| <= 1
  {
    AtMostOneInSilver(db.silver, Signed(c.customer));
    PairCount(LeftJoined(InSilver(db.silver, Signed(c.customer))), LeftJoined(Covering(db.audits, c.run)));
  }

  lemma RowsOfExactlyWhen(db: Database, c: Customer)
    ensures RowsOf(db, c) != [] <==> c.isCurrent && c.run in db.runs && c.file in db.files && c.batch in db.batches
                                     && db.runs[c.run].config in db.configs
    ensures forall v :: v in RowsOf(db, c) ==> v.customer == c.id
  {
    var silver, audits := LeftJoined(InSilver(db.silver, Signed(c.customer))), LeftJoined(Covering(db.audits, c.run));
    PairCount(silver, audits);
    assert |silver| >= 1 && |audits| >= 1 ==> |silver| * |audits| >= 1;
  }

  ghost predicate ShownBy(db: Database, n: nat, v: ViewRow)
    requires n <= |db.customers|
  {
    exists i :: 0 <= i < n && Shows(db, i, v)
  }

  ghost predicate Shows(db: Database, i: nat, v: ViewRow)
    requires i < |db.customers|
  {
    v in RowsOf(db, db.customers[i])
  }

  lemma InConcat<T>(v: T, a: seq<T>, b: seq<T>)
    ensures v in a + b <==> v in a || v in b
  {
  }

  lemma OneMoreShown(db: Database, n: nat, v: ViewRow)
    requires 0 < n <= |db.customers|
    ensures v in ViewTo(db, n) <==> v in ViewTo(db, n - 1) || Shows(db, n - 1, v)
  {
    var earlier, rows := ViewTo(db, n - 1), RowsOf(db, db.customers[n - 1]);
    assert ViewTo(db, n) == earlier + rows;
    InConcat(v, earlier, rows);
  }

  lemma OneMoreBy(db: Database, n: nat, v: ViewRow)
    requires 0 < n <= |db.customers|
    ensures ShownBy(db, n, v) <==> ShownBy(db, n - 1, v) || Shows(db, n - 1, v)
  {
  }

  lemma {:induction false} ShownTo(db: Database, n: nat, v: ViewRow)
    requires n <= |db.customers|
    ensures v in ViewTo(db, n) <==> ShownBy(db, n, v)
  {
    if n > 0 {
      ShownTo(db, n - 1, v);
      OneMoreShown(db, n, v);
      OneMoreBy(db, n, v);
    }
  }

  /** A customer row is shown at all if and only if it is the current one and everything it
      refers to is there; a superseded version never is. */
  lemma ShownExactlyWhenCurrent(db: Database, i: nat)
    requires i < |db.customers|
    requires forall j :: 0 <= j < |db.customers| && db.customers[j].id == db.customers[i].id ==> j == i
    ensures var c := db.customers[i];
      (exists v :: v in View(db) && v.customer == c.id) <==>
      c.isCurrent && c.run in db.runs && c.file in db.files && c.batch in db.batches
      && db.runs[c.run].config in db.configs
  {
    var c := db.customers[i];
    RowsOfExactlyWhen(db, c);
    if v :| v in View(db) && v.customer == c.id {
      ShownTo(db, |db.customers|, v);
      var j :| 0 <= j < |db.customers| && Shows(db, j, v);
      RowsOfExactlyWhen(db, db.customers[j]);
    }
    if RowsOf(db, c) != [] {
      var v := RowsOf(db, c)[0];
      assert Shows(db, i, v);
      ShownTo(db, |db.customers|, v);
    }
  }

  lemma PairsOfOne<S, T>(x: S, b: seq<T>)
    ensures Pairs([x], b) == seq(|b|, i requires 0 <= i < |b| => (x, b[i]))
  {
    assert [x][..0] == [] && Pairs([x][..0], b) == [];
  }

  /** Row i shows the i-th covering audit row, and every row the customer's one silver row. */
  lemma RowsShowTheAudits(db: Database, c: Customer, i: nat)
    requires UniqueSilver(db) && c.isCurrent && InnerJoins(db, c) && i < |RowsOf(db, c)|
    ensures var covering, silver := Covering(db.audits, c.run), InSilver(db.silver, Signed(c.customer));
      && RowsOf(db, c)[i].customer == c.id
      && (covering == [] ==> RowsOf(db, c)[i].audit == None)
      && (covering != [] ==> i < |covering| && RowsOf(db, c)[i].audit == Some(covering[i]))
      && RowsOf(db, c)[i].silver == if silver == [] then None else Some(silver[0])
  {
    var silver := InSilver(db.silver, Signed(c.customer));
    AtMostOneInSilver(db.silver, Signed(c.customer));
    var shown: Option<Silver> := if silver == [] then None else Some(silver[0]);
    assert LeftJoined(silver) == [shown];
    PairsOfOne(shown, LeftJoined(Covering(db.audits, c.run)));
  }

  /** Ranges of different builds share no run id. */
  ghost predicate DisjointRanges(audits: seq<Audit>) {
    forall i, j, run :: 0 <= i < j < |audits| && Covers(audits[i], run) ==> !Covers(audits[j], run)
  }

  lemma {:induction false} DisjointCoverOnce(audits: seq<Audit>, run: int)
    requires DisjointRanges(audits)
    ensures |Covering(audits, run)| <= 1
    ensures (forall i :: 0 <= i < |audits| ==> !Covers(audits[i], run)) ==> Covering(audits, run) == []
  {
    if audits != [] {
      DisjointCoverOnce(audits[..|audits| - 1], run);
    }
  }

  /** With disjoint audit ranges the view shows every current row exactly once. */
  lemma DisjointAuditsShowEachVersionOnce(db: Database, c: Customer)
    requires UniqueSilver(db) && c.isCurrent && InnerJoins(db, c) && DisjointRanges(db.audits)
    ensures |RowsOf(db, c)| == 1
  {
    RowsPerCurrentVersion(db, c);
    DisjointCoverOnce(db.audits, c.run);
  }

  // ----- the ranges that builds leave ----------------------------------------------------

  /** The audit row of a committed build: the least and the greatest run it claimed. */
  ghost predicate IsAuditOf(a: Audit, t: L.Txid, b: L.Build) {
    && a.id == t && a.model == b.dataset
    && (a.range.None? <==> b.claims == {})
    && (a.range.Some? ==>
          && (exists k :: k in b.claims && k.run == a.range.value.0)
          && (exists k :: k in b.claims && k.run == a.range.value.1)
          && (forall k :: k in b.claims ==> a.range.value.0 <= k.run <= a.range.value.1))
  }

  /** One audit row for every committed build of the customers model. */
  ghost predicate AuditsOf(audits: seq<Audit>, s: L.State) {
    && (forall i :: 0 <= i < |audits| ==> audits[i].id in s.built && IsAuditOf(audits[i], audits[i].id, s.built[audits[i].id]))
    && (forall i, j :: 0 <= i < j < |audits| ==> audits[i].id != audits[j].id)
    && (forall t :: t in s.built && s.built[t].dataset == "customers" ==> exists i :: 0 <= i < |audits| && audits[i].id == t)
  }

  /** Another build has claimed a run on either side. */
  ghost predicate Straddled(s: L.State, k: L.Key) {
    exists t, a, b :: t in s.built && a in s.built[t].claims && b in s.built[t].claims
      && a.dataset == b.dataset == k.dataset && k !in s.built[t].claims && a.run < k.run < b.run
  }

  lemma {:induction false} CoveringIsAFilter(audits: seq<Audit>, run: int, i: nat)
    requires i < |audits|
    ensures audits[i] in Covering(audits, run) <==> Covers(audits[i], run)
  {
    var last := |audits| - 1;
    if i < last {
      CoveringIsAFilter(audits[..last], run, i);
      assert audits[..last][i] == audits[i];
    } else if !Covers(audits[last], run) {
      CoveringCovers(audits[..last], run);
    }
  }

  lemma {:induction false} CoveringCovers(audits: seq<Audit>, run: int)
    ensures forall a :: a in Covering(audits, run) ==> Covers(a, run) && a in audits
  {
    if audits != [] {
      CoveringCovers(audits[..|audits| - 1], run);
    }
  }

  lemma {:induction false} CoveringStaysDistinct(audits: seq<Audit>, run: int)
    requires forall i, j :: 0 <= i < j < |audits| ==> audits[i].id != audits[j].id
    ensures forall i, j :: 0 <= i < j < |Covering(audits, run)| ==> Covering(audits, run)[i].id != Covering(audits, run)[j].id
  {
    if audits != [] {
      var init := audits[..|audits| - 1];
      CoveringStaysDistinct(init, run);
      CoveringCovers(init, run);
      forall a | a in Covering(init, run) ensures a.id != audits[|audits| - 1].id {
        var i :| 0 <= i < |init| && init[i] == a;
      }
    }
  }

  /** The build that claimed a run always covers it. */
  lemma OwnBuildCovers(s: L.State, audits: seq<Audit>, k: L.Key) returns (i: nat)
    requires L.Inv(s) && AuditsOf(audits, s) && k in s.ledger && k.dataset == "customers"
    ensures i < |audits| && audits[i].id == s.ledger[k] && Covers(audits[i], k.run)
  {
    var t := s.ledger[k];
    assert k in s.built[t].claims && s.built[t].dataset == k.dataset;
    i :| 0 <= i < |audits| && audits[i].id == t;
  }

  /** Another build covers it exactly when that build straddles it. */
  lemma OtherBuildCoversExactlyWhen(s: L.State, audits: seq<Audit>, k: L.Key, i: nat)
    requires L.Inv(s) && AuditsOf(audits, s) && k in s.ledger && k.dataset == "customers"
    requires i < |audits| && audits[i].id != s.ledger[k]
    ensures Covers(audits[i], k.run) <==>
      exists a, b :: a in s.built[audits[i].id].claims && b in s.built[audits[i].id].claims
        && a.dataset == b.dataset == k.dataset && a.run < k.run < b.run
  {
    var t := audits[i].id;
    var build := s.built[t];
    assert k !in build.claims;
    if Covers(audits[i], k.run) {
      var a :| a in build.claims && a.run == audits[i].range.value.0;
      var b :| b in build.claims && b.run == audits[i].range.value.1;
      assert a.dataset == b.dataset == k.dataset;
      assert a != k && b != k;
    }
  }

  lemma StraddledIsCoveredTwice(s: L.State, audits: seq<Audit>, k: L.Key)
    requires L.Inv(s) && AuditsOf(audits, s) && k in s.ledger && k.dataset == "customers" && Straddled(s, k)
    ensures |Covering(audits, k.run)| > 1
  {
    var own := OwnBuildCovers(s, audits, k);
    var other := StraddlerCovers(s, audits, k);
    TwoCover(audits, k.run, own, other);
  }

  lemma StraddlerCovers(s: L.State, audits: seq<Audit>, k: L.Key) returns (i: nat)
    requires L.Inv(s) && AuditsOf(audits, s) && k in s.ledger && k.dataset == "customers" && Straddled(s, k)
    ensures i < |audits| && audits[i].id != s.ledger[k] && Covers(audits[i], k.run)
  {
    var t, a, b :| t in s.built && a in s.built[t].claims && b in s.built[t].claims
      && a.dataset == b.dataset == k.dataset && k !in s.built[t].claims && a.run < k.run < b.run;
    i := AuditExists(s, audits, t, a);
    OtherBuildCoversExactlyWhen(s, audits, k, i);
  }

  lemma AuditExists(s: L.State, audits: seq<Audit>, t: L.Txid, a: L.Key) returns (i: nat)
    requires L.Inv(s) && AuditsOf(audits, s) && t in s.built && a in s.built[t].claims && a.dataset == "customers"
    ensures i < |audits| && audits[i].id == t
  {
    assert s.built[t].dataset == "customers";
    i :| 0 <= i < |audits| && audits[i].id == t;
  }

  lemma TwoCover(audits: seq<Audit>, run: int, i: nat, j: nat)
    requires i < |audits| && j < |audits| && audits[i].id != audits[j].id
    requires Covers(audits[i], run) && Covers(audits[j], run)
    ensures |Covering(audits, run)| > 1
  {
    CoveringIsAFilter(audits, run, i);
    CoveringIsAFilter(audits, run, j);
    var covering := Covering(audits, run);
    var x :| 0 <= x < |covering| && covering[x] == audits[i];
    var y :| 0 <= y < |covering| && covering[y] == audits[j];
    assert x != y;
  }

  lemma UnstraddledIsCoveredOnce(s: L.State, audits: seq<Audit>, k: L.Key)
    requires L.Inv(s) && AuditsOf(audits, s) && k in s.ledger && k.dataset == "customers" && !Straddled(s, k)
    ensures |Covering(audits, k.run)| <= 1
  {
    var covering := Covering(audits, k.run);
    CoveringCovers(audits, k.run);
    CoveringStaysDistinct(audits, k.run);
    forall a | a in covering ensures a.id == s.ledger[k] {
      var i :| 0 <= i < |audits| && audits[i] == a;
      OnlyOwnBuildCovers(s, audits, k, i);
    }
    assert |covering| > 1 ==> covering[0].id != covering[1].id;
  }

  lemma OnlyOwnBuildCovers(s: L.State, audits: seq<Audit>, k: L.Key, i: nat)
    requires L.Inv(s) && AuditsOf(audits, s) && k in s.ledger && k.dataset == "customers" && !Straddled(s, k)
    requires i < |audits| && Covers(audits[i], k.run)
    ensures audits[i].id == s.ledger[k]
  {
    if audits[i].id != s.ledger[k] {
      OtherBuildCoversExactlyWhen(s, audits, k, i);
      assert k !in s.built[audits[i].id].claims;
      assert Straddled(s, k);
      assert false;
    }
  }

  /** In every state the ledger can reach, a current row of a claimed run is shown exactly once
      if and only if no other build has claimed runs on either side of it. */
  lemma ShownOnceExactlyWhen(es: seq<L.Event>, db: Database, c: Customer)
    requires L.CanRun(L.Init(), es)
    requires var s := L.Exec(L.Init(), es); AuditsOf(db.audits, s) && L.Key("customers", c.run) in s.ledger
    requires UniqueSilver(db) && c.isCurrent && InnerJoins(db, c)
    ensures |RowsOf(db, c)| == 1 <==> !Straddled(L.Exec(L.Init(), es), L.Key("customers", c.run))
  {
    var s, k := L.Exec(L.Init(), es), L.Key("customers", c.run);
    L.RunKeepsInv(L.Init(), es);
    RowsPerCurrentVersion(db, c);
    if Straddled(s, k) {
      StraddledIsCoveredTwice(s, db.audits, k);
    } else {
      UnstraddledIsCoveredOnce(s, db.audits, k);
    }
  }

  /** The ledger reaches such a state: two runs committed and built before a third whose id
      lies between them. */
  lemma LateRunIsStraddled(low: int, late: int, high: int) returns (es: seq<L.Event>)
    requires low < late < high
    ensures L.CanRun(L.Init(), es)
    ensures var s := L.Exec(L.Init(), es); var k := L.Key("customers", late); k in s.ledger && Straddled(s, k)
  {
    var k := L.Key("customers", late);
    var t;
    es, t := BothBuilt(low, high);
    var s2 := L.Exec(L.Init(), es);
    es := L.Then(es, L.CommitBronze(k));
    var s3 := L.Exec(L.Init(), es);
    L.RunKeepsInv(L.Init(), es);
    assert s3.built == s2.built && s3.ledger == s2.ledger && s3.next == s2.next;
    var build := L.SoloBuildClaimsEveryUnclaimedRun(s3, "customers", true);
    assert k in L.InDataset(s3.bronze, "customers") - s3.ledger.Keys;
    L.ExecConcat(L.Init(), es, build);
    es := es + build;
    var s4 := L.Exec(L.Init(), es);
    assert s4.built[t] == s2.built[t];
    assert L.Key("customers", low) in s4.built[t].claims && L.Key("customers", high) in s4.built[t].claims;
  }

  lemma BothCommitted(a: L.Key, b: L.Key) returns (es: seq<L.Event>)
    requires a != b
    ensures L.CanRun(L.Init(), es) && L.Exec(L.Init(), es) == L.Init().(bronze := {a, b})
  {
    es := [];
    es := L.Then(es, L.CommitBronze(a));
    es := L.Then(es, L.CommitBronze(b));
  }

  lemma BothBuilt(low: int, high: int) returns (es: seq<L.Event>, t: L.Txid)
    requires low < high
    ensures L.CanRun(L.Init(), es)
    ensures var s := L.Exec(L.Init(), es); var both := {L.Key("customers", low), L.Key("customers", high)};
      && s.open == map[] && s.bronze == s.ledger.Keys == both
      && t in s.built && t < s.next && s.built[t].claims == both
  {
    var both := {L.Key("customers", low), L.Key("customers", high)};
    es := BothCommitted(L.Key("customers", low), L.Key("customers", high));
    var s1 := L.Exec(L.Init(), es);
    L.RunKeepsInv(L.Init(), es);
    t := s1.next;
    var build := L.SoloBuildClaimsEveryUnclaimedRun(s1, "customers", true);
    assert L.InDataset(s1.bronze, "customers") - s1.ledger.Keys == both;
    L.ExecConcat(L.Init(), es, build);
    es := es + build;
    L.RunKeepsInv(L.Init(), es);
  }
}
