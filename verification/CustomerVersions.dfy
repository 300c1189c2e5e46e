/**
  The in-place migration of the customers table to versioned rows, what its exclusion
  constraint then guarantees, and the publisher's replacement of one customer's versions.
 */
module CustomerVersions {
  import opened Options
  import V = VersionChain

  /** Timestamps are integers; the sentinel is the migration's open end. */
  const SENTINEL: int := 253402214400

  /** A row before the migration. */
  datatype Plain = Plain(
    customer: int,
    name: Option<string>,
    country: Option<string>,
    birthDate: Option<string>,
    eventTs: Option<int>)

  /** A row after it; `validity` is generated from the two timestamps. */
  datatype Row = Row(
    customer: int,
    name: Option<string>,
    country: Option<string>,
    birthDate: Option<string>,
    eventTs: int,
    validTo: int,
    isCurrent: bool,
    signupCountry: Option<string>)

  /** A range's lower bound must not lie above its upper bound. */
  predicate HasRange(r: Row) {
    r.eventTs <= r.validTo
  }

  /** `&&` on half-open ranges; an empty range overlaps nothing. */
  predicate Overlap(a: Row, b: Row) {
    a.eventTs < a.validTo && b.eventTs < b.validTo && a.eventTs < b.validTo && b.eventTs < a.validTo
  }

  /** What the table accepts at the end of any statement: the exclusion constraint. */
  predicate Admissible(rows: map<nat, Row>) {
    && (forall id :: id in rows ==> HasRange(rows[id]))
    && (forall a, b :: a in rows && b in rows && a != b && rows[a].customer == rows[b].customer ==>
          !Overlap(rows[a], rows[b]))
  }

  predicate UniqueCustomers(rows: map<nat, Plain>) {
    forall a, b :: a in rows && b in rows && a != b ==> rows[a].customer != rows[b].customer
  }

  datatype Table = Before(plain: map<nat, Plain>) | After(rows: map<nat, Row>)

  predicate Consistent(t: Table) {
    match t
    case Before(plain) => UniqueCustomers(plain)
    case After(rows) => Admissible(rows)
  }

  predicate IdsBelow(t: Table, n: nat) {
    match t
    case Before(plain) => forall id :: id in plain ==> id < n
    case After(rows) => forall id :: id in rows ==> id < n
  }

  /** Every existing row takes the column defaults. */
  function Versioned(plain: map<nat, Plain>): map<nat, Row>
    requires forall id :: id in plain ==> plain[id].eventTs.Some?
  {
    map id | id in plain :: var p := plain[id];
      Row(p.customer, p.name, p.country, p.birthDate, p.eventTs.value, SENTINEL, true, None)
  }

  function Unversioned(rows: map<nat, Row>): map<nat, Plain> {
    map id | id in rows :: var r := rows[id]; Plain(r.customer, r.name, r.country, r.birthDate, Some(r.eventTs))
  }

  function Without(rows: map<nat, Row>, customer: int): map<nat, Row> {
    map id | id in rows && rows[id].customer != customer :: rows[id]
  }

  function RowOf(v: V.Version): Row {
    Row(v.customer, v.name, v.country, v.birthDate, v.validFrom, v.validTo, v.isCurrent, v.signupCountry)
  }

  /** The rows of a recomputed chain. */
  function VersionRows(ordered: seq<V.Bronze>): (rows: seq<Row>)
    requires ordered != []
    ensures rows != []
  {
    var chain := V.Chain(ordered, SENTINEL);
    seq(|chain|, g requires 0 <= g < |chain| => RowOf(chain[g]))
  }

  /** The table with more rows added under consecutive ids. */
  function Placed(rows: map<nat, Row>, from: nat, more: seq<Row>): map<nat, Row> {
    if more == [] then rows else Placed(rows, from, more[..|more| - 1])[from + |more| - 1 := more[|more| - 1]]
  }

  /** Nothing of the row's customer overlaps it. */
  predicate Fits(rows: map<nat, Row>, row: Row) {
    HasRange(row) && forall id :: id in rows && rows[id].customer == row.customer ==> !Overlap(rows[id], row)
  }

  class Customers {
    var table: Table
    var nextId: nat

    ghost predicate Valid()
      reads this
    {
      Consistent(table) && IdsBelow(table, nextId)
    }

    constructor ()
      ensures Valid() && table == Before(map[])
    {
      table, nextId := Before(map[]), 0;
    }

    /** `upgrade`, one transaction; false is a failing statement and a rollback. */
    method Upgrade() returns (ok: bool)
      requires table.Before? && Valid()
      modifies this`table
      ensures Valid()
      ensures ok <==> forall id :: id in old(table).plain ==>
        old(table).plain[id].eventTs.Some? && old(table).plain[id].eventTs.value <= SENTINEL
      ensures ok ==> table == After(Versioned(old(table).plain))
      ensures !ok ==> table == old(table)
    {
      var plain := table.plain;
      if id :| id in plain && plain[id].eventTs.None? {
        return false;
      }
      var rows := Versioned(plain);
      assert forall id :: id in plain ==>
        id in rows && rows[id].eventTs == plain[id].eventTs.value && rows[id].validTo == SENTINEL;
      if id :| id in rows && !HasRange(rows[id]) {
        return false;
      }
      table := After(rows);
      ok := true;
    }

    /** `downgrade`: the old unique constraint can come back only over single versions. */
    method Downgrade() returns (ok: bool)
      requires table.After? && Valid()
      modifies this`table
      ensures Valid()
      ensures ok <==> forall a, b :: a in old(table).rows && b in old(table).rows && a != b ==>
        old(table).rows[a].customer != old(table).rows[b].customer
      ensures ok ==> table == Before(Unversioned(old(table).rows))
      ensures !ok ==> table == old(table)
    {
      var plain := Unversioned(table.rows);
      assert forall id :: id in table.rows ==> id in plain && plain[id].customer == table.rows[id].customer;
      if a, b :| a in plain && b in plain && a != b && plain[a].customer == plain[b].customer {
        return false;
      }
      table := Before(plain);
      ok := true;
    }

    /** One INSERT. The constraint looks at the new row only; the identity is spent either way. */
    method InsertVersion(row: Row) returns (ok: bool)
      requires table.After? && Valid()
      modifies this
      ensures Valid() && nextId == old(nextId) + 1
      ensures ok <==> Fits(old(table).rows, row)
      ensures table == if ok then After(old(table).rows[old(nextId) := row]) else old(table)
    {
      nextId := nextId + 1;
      if !HasRange(row) {
        return false;
      }
      if id :| id in table.rows && table.rows[id].customer == row.customer && Overlap(table.rows[id], row) {
        return false;
      }
      table := After(table.rows[nextId - 1 := row]);
      ok := true;
    }

    method DeleteVersions(customer: int)
      requires table.After? && Valid()
      modifies this`table
      ensures Valid() && table == After(Without(old(table).rows, customer))
    {
      table := After(Without(table.rows, customer));
    }

    /** Steps C and D of `SCDPublisher` for one customer: recompute the chain, delete the old
        versions, insert the new ones; a failing statement rolls everything back. */
    method Replace(customer: int, history: seq<V.Bronze>) returns (ok: bool)
      requires table.After? && Valid()
      requires forall r :: r in history ==> r.customer == customer
      modifies this
      ensures Valid()
      ensures ok <==> history != [] && StartsBySentinel(VersionRows(V.Sorted(history)))
      ensures ok ==> table == After(Placed(Without(old(table).rows, customer), old(nextId), VersionRows(V.Sorted(history))))
      ensures !ok ==> table == old(table)
    {
      var before := table;
      var recomputed := V.RecomputeVersionChain(history, SENTINEL);
      if recomputed.NoHistory? {
        return false;
      }
      var chain, from := recomputed.versions, nextId;
      ghost var others, rows := Without(table.rows, customer), VersionRows(V.Sorted(history));
      assert Elsewhere(others, customer, from);
      RecomputedRowsAreStaggered(history, customer);
      DeleteVersions(customer);
      for g := 0 to |chain|
        invariant Valid() && nextId == from + g
        invariant table == After(Placed(others, from, rows[..g]))
        invariant g == |rows| ==> StartsBySentinel(rows)
      {
        NextRowFits(rows, customer, others, from, g);
        var inserted := InsertVersion(RowOf(chain[g]));
        if !inserted {
          table := before;
          return false;
        }
      }
      assert rows[..|rows|] == rows;
      ok := true;
    }
  }

  /** The last version starts by the sentinel. */
  predicate StartsBySentinel(rows: seq<Row>)
    requires rows != []
  {
    rows[|rows| - 1].eventTs <= SENTINEL
  }

  lemma {:induction false} PlacedAt(rows: map<nat, Row>, from: nat, more: seq<Row>)
    requires forall id :: id in rows ==> id < from
    ensures var placed := Placed(rows, from, more);
      && (forall id :: id in placed <==> id in rows || from <= id < from + |more|)
      && (forall id :: id in rows ==> placed[id] == rows[id])
      && (forall g :: 0 <= g < |more| ==> placed[from + g] == more[g])
  {
    if more != [] {
      PlacedAt(rows, from, more[..|more| - 1]);
    }
  }

  /** One customer's versions, one after the other, open-ended at last. */
  ghost predicate Staggered(rows: seq<Row>, customer: int) {
    && (forall g :: 0 <= g < |rows| ==> rows[g].customer == customer)
    && (forall a, b :: 0 <= a < b < |rows| ==> rows[a].validTo <= rows[b].eventTs)
    && (forall g :: 0 <= g < |rows| - 1 ==> HasRange(rows[g]))
    && (rows != [] ==> rows[|rows| - 1].validTo == SENTINEL)
  }

  lemma ChainIsStaggered(ordered: seq<V.Bronze>, customer: int)
    requires ordered != [] && V.Ascends(ordered) && forall r :: r in ordered ==> r.customer == customer
    ensures Staggered(VersionRows(ordered), customer)
  {
    var rows := VersionRows(ordered);
    V.ChainIsContiguous(ordered, SENTINEL);
    forall g | 0 <= g < |rows| ensures rows[g].customer == customer && (g < |rows| - 1 ==> HasRange(rows[g])) {
      V.VersionMade(ordered, SENTINEL, g);
      if g < |rows| - 1 {
        V.VersionEndsAfterItStarts(ordered, SENTINEL, g);
      }
    }
  }

  lemma RecomputedRowsAreStaggered(history: seq<V.Bronze>, customer: int)
    requires history != [] && forall r :: r in history ==> r.customer == customer
    ensures Staggered(VersionRows(V.Sorted(history)), customer)
  {
    V.SortedAscends(history);
    V.SortedHolds(history);
    ChainIsStaggered(V.Sorted(history), customer);
  }

  /** Rows of other customers, with ids already given out. */
  ghost predicate Elsewhere(others: map<nat, Row>, customer: int, from: nat) {
    forall id :: id in others ==> others[id].customer != customer && id < from
  }

  /** Among other customers' rows and the versions before it, the next version fits unless it
      is the last and starts after the sentinel. */
  lemma NextRowFits(rows: seq<Row>, customer: int, others: map<nat, Row>, from: nat, g: nat)
    requires Staggered(rows, customer) && g < |rows|
    requires Elsewhere(others, customer, from)
    ensures Fits(Placed(others, from, rows[..g]), rows[g]) <==> g < |rows| - 1 || StartsBySentinel(rows)
    ensures Placed(others, from, rows[..g + 1]) == Placed(others, from, rows[..g])[from + g := rows[g]]
  {
    assert rows[..g + 1][..g] == rows[..g];
    var placed := Placed(others, from, rows[..g]);
    PlacedAt(others, from, rows[..g]);
    forall id | id in placed && placed[id].customer == customer ensures !Overlap(placed[id], rows[g]) {
      assert id !in others ==> placed[from + (id - from)] == rows[..g][id - from] == rows[id - from];
    }
  }

  function VersionsOf(rows: map<nat, Row>, customer: int): set<Row> {
    set id | id in rows && rows[id].customer == customer :: rows[id]
  }

  lemma PlacedVersions(others: map<nat, Row>, customer: int, from: nat, rows: seq<Row>)
    requires Elsewhere(others, customer, from)
    requires forall g :: 0 <= g < |rows| ==> rows[g].customer == customer
    ensures Without(Placed(others, from, rows), customer) == others
    ensures VersionsOf(Placed(others, from, rows), customer) == set r | r in rows
  {
    var placed := Placed(others, from, rows);
    PlacedAt(others, from, rows);
    forall r | r in rows ensures r in VersionsOf(placed, customer) {
      var g :| 0 <= g < |rows| && rows[g] == r;
      assert placed[from + g] == r;
    }
    forall id | id in placed && id !in others ensures placed[id] in rows {
      assert placed[from + (id - from)] == rows[id - from];
    }
  }

  /** A replay is idempotent although it stages every row again: publishing a customer from a
      history with the same rows, more often and in another order, leaves its versions and
      everybody else's rows as they were. */
  lemma ReplayIsIdempotent(others: map<nat, Row>, customer: int, history: seq<V.Bronze>, replayed: seq<V.Bronze>,
                           table: set<V.Bronze>, from: nat, again: nat)
    requires Elsewhere(others, customer, from) && from <= again
    requires history != [] && replayed != [] && V.SameRows(history, replayed)
    requires V.TiedRowsAgree(table) && forall r :: r in history ==> r in table && r.customer == customer
    ensures var first := Placed(others, from, VersionRows(V.Sorted(history)));
      var second := Placed(Without(first, customer), again, VersionRows(V.Sorted(replayed)));
      Without(second, customer) == Without(first, customer) && VersionsOf(second, customer) == VersionsOf(first, customer)
  {
    V.ReplaysAndReadOrderDoNotMatter(history, replayed, table, SENTINEL);
    RecomputedRowsAreStaggered(history, customer);
    var rows := VersionRows(V.Sorted(history));
    PlacedVersions(others, customer, from, rows);
    PlacedVersions(others, customer, again, rows);
  }

  /** Right after it is published a customer has exactly one current version, the open one. */
  lemma OneCurrentAfterReplace(others: map<nat, Row>, customer: int, ordered: seq<V.Bronze>, from: nat, id: nat)
    requires ordered != [] && V.Ascends(ordered) && forall r :: r in ordered ==> r.customer == customer
    requires Elsewhere(others, customer, from)
    ensures var rows := VersionRows(ordered); var placed := Placed(others, from, rows);
      id in placed && placed[id].customer == customer && placed[id].isCurrent <==> id == from + |rows| - 1
    ensures OpenCurrent(VersionRows(ordered)[|VersionRows(ordered)| - 1])
  {
    var rows := VersionRows(ordered);
    var placed := Placed(others, from, rows);
    V.ChainIsContiguous(ordered, SENTINEL);
    ChainIsStaggered(ordered, customer);
    PlacedAt(others, from, rows);
    assert id in placed && id !in others ==> placed[from + (id - from)] == rows[id - from];
    assert placed[from + (|rows| - 1)] == rows[|rows| - 1];
  }

  /** The last row by a moment, in the order of the key. */
  lemma {:induction false} LastBy(s: seq<V.Bronze>, t: int, n: nat) returns (i: nat)
    requires V.Ascends(s) && 0 < n <= |s| && s[0].eventTs <= t && forall j :: n <= j < |s| ==> s[j].eventTs > t
    ensures i < |s| && s[i].eventTs <= t && forall j :: i < j < |s| ==> s[j].eventTs > t
    decreases n
  {
    if s[n - 1].eventTs <= t {
      i := n - 1;
    } else {
      i := LastBy(s, t, n - 1);
    }
  }

  predicate InForce(row: Row, customer: int, t: int) {
    row.customer == customer && row.eventTs <= t < row.validTo
  }

  /** The row that is last by this moment: by event time, then by file, then by row number. */
  ghost predicate IsLastBy(history: seq<V.Bronze>, row: V.Bronze, t: int) {
    row in history && row.eventTs <= t && forall x :: x in history && x.eventTs <= t ==>
      && x.eventTs <= row.eventTs
      && (x.eventTs == row.eventTs ==> x.fileId <= row.fileId)
      && (x.eventTs == row.eventTs && x.fileId == row.fileId ==> x.rowNumber <= row.rowNumber)
  }

  /** The table as published answers every moment from the customer's first row on: exactly one
      version is in force, and it shows the joined name and country of the row that is last by
      then. */
  lemma PublishedTableAnswersAsOf(others: map<nat, Row>, customer: int, history: seq<V.Bronze>, from: nat, t: int, seen: V.Bronze)
    returns (id: nat, row: V.Bronze)
    requires Elsewhere(others, customer, from) && forall r :: r in history ==> r.customer == customer
    requires seen in history && seen.eventTs <= t < SENTINEL
    ensures IsLastBy(history, row, t)
    ensures var table := Placed(others, from, VersionRows(V.Sorted(history)));
      && id in table && InForce(table[id], customer, t)
      && (forall k :: k in table && InForce(table[k], customer, t) ==> k == id)
      && V.Text(table[id].name) + "|" + V.Text(table[id].country) == V.Tracked(row)
  {
    var i := LastRowBy(history, t, seen);
    row := V.Sorted(history)[i];
    V.SortedAscends(history);
    var g := V.ChainAnswersAsOf(V.Sorted(history), SENTINEL, i, t);
    id := from + g;
    OneRowInForce(others, customer, history, from, t, g);
  }

  /** Every published version of the customer has the birth date of a row with the greatest key
      and the signup country of a row with the least. */
  lemma PublishedTableIsUniform(others: map<nat, Row>, customer: int, history: seq<V.Bronze>, from: nat)
    returns (dated: V.Bronze, first: V.Bronze)
    requires Elsewhere(others, customer, from) && history != [] && forall r :: r in history ==> r.customer == customer
    ensures V.IsGreatest(history, dated) && V.IsLeast(history, first)
    ensures var table := Placed(others, from, VersionRows(V.Sorted(history)));
      forall k :: k in table && table[k].customer == customer ==>
        table[k].birthDate == dated.birthDate && table[k].signupCountry == first.signupCountry
  {
    var last;
    last, dated, first := V.ChainShowsTheGreatestRow(history, SENTINEL);
    var rows := VersionRows(V.Sorted(history));
    var table := Placed(others, from, rows);
    PlacedAt(others, from, rows);
    forall k | k in table && table[k].customer == customer
      ensures table[k].birthDate == dated.birthDate && table[k].signupCountry == first.signupCountry
    {
      assert k !in others;
      assert table[from + (k - from)] == rows[k - from];
    }
  }

  lemma LastRowBy(history: seq<V.Bronze>, t: int, seen: V.Bronze) returns (i: nat)
    requires seen in history && seen.eventTs <= t
    ensures var s := V.Sorted(history);
      i < |s| && IsLastBy(history, s[i], t) && forall j :: i < j < |s| ==> s[j].eventTs > t
  {
    var s := V.Sorted(history);
    V.SortedAscends(history);
    V.SortedHolds(history);
    V.SortedByKey(history);
    var k :| 0 <= k < |s| && s[k] == seen;
    assert s[0].eventTs <= s[k].eventTs;
    i := LastBy(s, t, |s|);
    assert s[i] in s;
    forall x | x in history && x.eventTs <= t
      ensures !V.Before(s[i], x)
    {
      assert x in s;
      var j :| 0 <= j < |s| && s[j] == x;
      assert j < i ==> !V.Before(s[i], s[j]);
    }
  }

  /** The placed rows are the versions, column by column, so the version that covers a moment is
      the customer's one row in force. */
  lemma OneRowInForce(others: map<nat, Row>, customer: int, history: seq<V.Bronze>, from: nat, t: int, g: nat)
    requires Elsewhere(others, customer, from) && history != [] && forall r :: r in history ==> r.customer == customer
    requires var chain := V.Chain(V.Sorted(history), SENTINEL);
      g < |chain| && V.Covers(chain[g], t) && forall h :: 0 <= h < |chain| && V.Covers(chain[h], t) ==> h == g
    ensures var chain := V.Chain(V.Sorted(history), SENTINEL);
      var table := Placed(others, from, VersionRows(V.Sorted(history)));
      && from + g in table && InForce(table[from + g], customer, t)
      && table[from + g].name == chain[g].name && table[from + g].country == chain[g].country
      && table[from + g].birthDate == chain[g].birthDate && table[from + g].signupCountry == chain[g].signupCountry
      && forall k :: k in table && InForce(table[k], customer, t) ==> k == from + g
  {
    var rows := VersionRows(V.Sorted(history));
    var table := Placed(others, from, rows);
    PlacedAt(others, from, rows);
    RecomputedRowsAreStaggered(history, customer);
    assert table[from + g] == rows[g];
    forall k | k in table && InForce(table[k], customer, t) ensures k == from + g {
      assert k !in others;
      assert table[from + (k - from)] == rows[k - from];
    }
  }

  /** Upgrading and downgrading again loses nothing. */
  lemma DowngradeUndoesUpgrade(plain: map<nat, Plain>)
    requires forall id :: id in plain ==> plain[id].eventTs.Some?
    ensures Unversioned(Versioned(plain)) == plain
  {
  }

  /** A current row with the sentinel as its open end. */
  predicate OpenCurrent(r: Row) {
    r.isCurrent && r.validTo == SENTINEL
  }

  /** Two open current rows of a customer are admissible together if and only if one of them
      starts at the sentinel itself, where its range is empty. */
  lemma CurrentRowsCoexistExactlyWhen(a: Row, b: Row)
    requires OpenCurrent(a) && OpenCurrent(b) && HasRange(a) && HasRange(b) && a.customer == b.customer
    ensures Admissible(map[0 := a, 1 := b]) <==> a.eventTs == SENTINEL || b.eventTs == SENTINEL
  {
    var rows := map[0 := a, 1 := b];
    assert rows[0] == a && rows[1] == b;
    if Admissible(rows) {
      assert !Overlap(rows[0], rows[1]);
    }
  }

  /** In every admissible table a customer has at most one current row, if current rows carry
      the sentinel and start before it. */
  lemma AtMostOneCurrent(rows: map<nat, Row>, a: nat, b: nat)
    requires Admissible(rows) && a in rows && b in rows && rows[a].customer == rows[b].customer
    requires OpenCurrent(rows[a]) && OpenCurrent(rows[b])
    requires rows[a].eventTs < SENTINEL && rows[b].eventTs < SENTINEL
    ensures a == b
  {
    assert a != b ==> !Overlap(rows[a], rows[b]);
  }

  /** Right after the upgrade that is exactly one per customer. */
  lemma UpgradeLeavesOneCurrent(plain: map<nat, Plain>, id: nat)
    requires UniqueCustomers(plain) && id in plain && forall k :: k in plain ==> plain[k].eventTs.Some?
    ensures OpenCurrent(Versioned(plain)[id])
    ensures forall k :: k in Versioned(plain) && Versioned(plain)[k].customer == plain[id].customer ==> k == id
  {
  }

  // ----- the recomputed chain fits the constraint ------------------------------------

  /** The versions recomputed for one customer, whatever their dates, satisfy the constraint
      if and only if the last one starts by the sentinel. */
  lemma ChainIsAdmissibleExactlyWhen(ordered: seq<V.Bronze>, customer: int)
    requires ordered != [] && V.Ascends(ordered) && forall r :: r in ordered ==> r.customer == customer
    ensures Admissible(Placed(map[], 0, VersionRows(ordered))) <==> StartsBySentinel(VersionRows(ordered))
  {
    var rows := VersionRows(ordered);
    ChainIsStaggered(ordered, customer);
    PlacedFromZero(rows);
    StaggeredIsAdmissibleExactlyWhen(Placed(map[], 0, rows), rows, customer);
  }

  lemma PlacedFromZero(rows: seq<Row>)
    ensures Lists(Placed(map[], 0, rows), rows)
  {
    PlacedAt(map[], 0, rows);
    forall g | 0 <= g < |rows| ensures Placed(map[], 0, rows)[g] == rows[g] {
      assert Placed(map[], 0, rows)[0 + g] == rows[g];
    }
  }

  ghost predicate Lists(table: map<nat, Row>, rows: seq<Row>) {
    && (forall id: nat :: id in table <==> id < |rows|)
    && (forall g :: 0 <= g < |rows| ==> table[g] == rows[g])
  }

  lemma StaggeredIsAdmissibleExactlyWhen(table: map<nat, Row>, rows: seq<Row>, customer: int)
    requires rows != [] && Staggered(rows, customer) && Lists(table, rows)
    ensures Admissible(table) <==> StartsBySentinel(rows)
  {
    var last := |rows| - 1;
    assert last in table && table[last] == rows[last];
    forall a, b | a in table && b in table && a != b ensures !Overlap(table[a], table[b]) {
      assert table[a] == rows[a] && table[b] == rows[b];
    }
  }
}
