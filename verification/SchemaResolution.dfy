/**
  `CsvSource._resolve_schema` over the version history of one dataset, with the
  `SchemaRepository` it reads and writes and the positional loader it protects.

  `hash_schema` is taken as injective, so a column list stands for its own hash;
  a column's position is its index in the list.
 */
module SchemaResolution {

  import opened Options

  datatype Column = Column(name: string, typ: string)

  datatype ColumnContract = ColumnContract(name: string, typ: string, required: bool)

  datatype Origin = CONTRACT | INFERRED

  /** One `meta.schema_versions` row; current means `valid_to IS NULL`. */
  datatype Version = Version(version: nat, columns: seq<Column>, origin: Origin, current: bool)

  datatype Code = Disappeared | Retyped | Reordered | StorageFailure

  datatype Resolution = Resolved(version: nat) | Rejected(code: Code)

  // ----- the repository --------------------------------------------------------

  /** Index of the current row. */
  function CurrentRow(rows: seq<Version>): (r: Option<nat>)
    ensures r.Some? ==> r.value < |rows| && rows[r.value].current
    ensures r.None? ==> forall i :: 0 <= i < |rows| ==> !rows[i].current
  {
    if rows == [] then None
    else if rows[|rows| - 1].current then Some(|rows| - 1)
    else CurrentRow(rows[..|rows| - 1])
  }

  /** Index of the first row with these columns. */
  function RowWithColumns(rows: seq<Version>, columns: seq<Column>): (r: Option<nat>)
    ensures r.Some? ==> r.value < |rows| && rows[r.value].columns == columns
    ensures r.Some? ==> forall i :: 0 <= i < r.value ==> rows[i].columns != columns
    ensures r.None? ==> forall i :: 0 <= i < |rows| ==> rows[i].columns != columns
  {
    if rows == [] then None
    else if rows[0].columns == columns then Some(0)
    else match RowWithColumns(rows[1..], columns)
      case None => None
      case Some(i) => Some(i + 1)
  }

  /** `COALESCE(MAX(version), 0)`. */
  function MaxVersion(rows: seq<Version>): nat {
    if rows == [] then 0
    else if rows[0].version > MaxVersion(rows[1..]) then rows[0].version
    else MaxVersion(rows[1..])
  }

  /** The current row already has these columns. */
  predicate InSync(rows: seq<Version>, columns: seq<Column>) {
    CurrentRow(rows).Some? && rows[CurrentRow(rows).value].columns == columns
  }

  /** `sync`: a no-op on the current columns, otherwise closes the current row and appends. */
  function Synced(rows: seq<Version>, columns: seq<Column>, origin: Origin): seq<Version> {
    if InSync(rows, columns) then rows
    else
      var closed := match CurrentRow(rows)
        case None => rows
        case Some(i) => rows[i := rows[i].(current := false)];
      closed + [Version(MaxVersion(rows) + 1, columns, origin, true)]
  }

  function SyncedVersion(rows: seq<Version>, columns: seq<Column>): nat {
    if InSync(rows, columns) then rows[CurrentRow(rows).value].version else MaxVersion(rows) + 1
  }

  class SchemaRepository {
    var rows: seq<Version>

    constructor ()
      ensures rows == []
    {
      rows := [];
    }

    method Sync(columns: seq<Column>, origin: Origin) returns (version: nat)
      modifies this
      ensures rows == Synced(old(rows), columns, origin)
      ensures version == SyncedVersion(old(rows), columns)
    {
      var current := CurrentRow(rows);
      if current.Some? && rows[current.value].columns == columns {
        return rows[current.value].version;
      }
      version := MaxVersion(rows) + 1;
      if current.Some? {
        rows := rows[current.value := rows[current.value].(current := false)];
      }
      rows := rows + [Version(version, columns, origin, true)];
    }

    method ResolveByHash(columns: seq<Column>) returns (version: Option<nat>)
      ensures version.Some? <==> RowWithColumns(rows, columns).Some?
      ensures version.Some? ==> version.value == rows[RowWithColumns(rows, columns).value].version
    {
      match RowWithColumns(rows, columns)
      case None => version := None;
      case Some(i) => version := Some(rows[i].version);
    }
  }

  // ----- classification ----------------------------------------------------------

  function Names(contract: seq<ColumnContract>): (names: seq<string>)
    ensures |names| == |contract|
  {
    seq(|contract|, i requires 0 <= i < |contract| => contract[i].name)
  }

  function Optional(contract: seq<ColumnContract>): set<string> {
    set i | 0 <= i < |contract| && !contract[i].required :: contract[i].name
  }

  /** The contract baseline. */
  function Baseline(contract: seq<ColumnContract>): seq<Column> {
    seq(|contract|, i requires 0 <= i < |contract| => Column(contract[i].name, contract[i].typ))
  }

  /** A dict built in contract order: the last column of that name wins. */
  function TypeOf(contract: seq<ColumnContract>, name: string): string {
    if contract == [] then "unknown"
    else if contract[|contract| - 1].name == name then contract[|contract| - 1].typ
    else TypeOf(contract[..|contract| - 1], name)
  }

  /** The file's observed columns, typed by the contract where it knows the name. */
  function Observed(contract: seq<ColumnContract>, header: seq<string>): seq<Column> {
    seq(|header|, i requires 0 <= i < |header| => Column(header[i], TypeOf(contract, header[i])))
  }

  function Find(columns: seq<Column>, name: string): (r: Option<Column>)
    ensures r.Some? ==> r.value in columns && r.value.name == name
    ensures r.None? ==> forall c :: c in columns ==> c.name != name
  {
    if columns == [] then None
    else if columns[|columns| - 1].name == name then Some(columns[|columns| - 1])
    else Find(columns[..|columns| - 1], name)
  }

  /** The first breaking change, in baseline order. */
  function FirstBreak(old_: seq<Column>, new_: seq<Column>, optional: set<string>): Option<Code> {
    if old_ == [] then None
    else match Find(new_, old_[0].name)
      case None => if old_[0].name in optional then FirstBreak(old_[1..], new_, optional) else Some(Disappeared)
      case Some(c) => if c.typ != old_[0].typ then Some(Retyped) else FirstBreak(old_[1..], new_, optional)
  }

  /** `classify_schema_change` found a column the contract does not name. */
  predicate HasAddition(contract: seq<ColumnContract>, header: seq<string>) {
    exists i :: 0 <= i < |header| && header[i] !in Names(contract)
  }

  predicate OmittedAreOptional(contract: seq<ColumnContract>, from: nat) {
    forall i :: from <= i < |contract| ==> contract[i].name in Optional(contract)
  }

  // ----- resolution -----------------------------------------------------------------

  function Resolve(contract: seq<ColumnContract>, header: seq<string>, rows: seq<Version>): (seq<Version>, Resolution) {
    var old_, new_ := Baseline(contract), Observed(contract, header);
    if CurrentRow(rows).None? then
      (Synced(rows, old_, CONTRACT), Resolved(SyncedVersion(rows, old_)))
    else if FirstBreak(old_, new_, Optional(contract)).Some? then
      (rows, Rejected(FirstBreak(old_, new_, Optional(contract)).value))
    else if HasAddition(contract, header) then
      if !(Names(contract) <= header) then (rows, Rejected(Reordered))
      else (Synced(rows, new_, INFERRED), Resolved(SyncedVersion(rows, new_)))
    else if header != Names(contract) then
      if header <= Names(contract) && OmittedAreOptional(contract, |header|) then
        match RowWithColumns(rows, old_)
        case Some(i) => (rows, Resolved(rows[i].version))
        case None => (Synced(rows, old_, CONTRACT), Resolved(SyncedVersion(rows, old_)))
      else (rows, Rejected(Reordered))
    else if rows[CurrentRow(rows).value].columns == new_ then
      (Synced(rows, old_, CONTRACT), Resolved(SyncedVersion(rows, old_)))
    else
      match RowWithColumns(rows, new_)
      case Some(i) => (rows, Resolved(rows[i].version))
      case None => (rows, Rejected(StorageFailure))
  }

  class CsvSource {
    const repo: SchemaRepository

    constructor (repo: SchemaRepository)
      ensures this.repo == repo
    {
      this.repo := repo;
    }

    method ResolveSchema(contract: seq<ColumnContract>, header: seq<string>) returns (r: Resolution)
      modifies repo
      ensures (repo.rows, r) == Resolve(contract, header, old(repo.rows))
    {
      var baseline, observed := Baseline(contract), Observed(contract, header);
      var version: nat;
      var current := CurrentRow(repo.rows);
      if current.None? {
        version := repo.Sync(baseline, CONTRACT);
        return Resolved(version);
      }
      var broken := FirstBreak(baseline, observed, Optional(contract));
      if broken.Some? {
        return Rejected(broken.value);
      }
      if HasAddition(contract, header) {
        if !(Names(contract) <= header) {
          return Rejected(Reordered);
        }
        version := repo.Sync(observed, INFERRED);
        return Resolved(version);
      }
      if header != Names(contract) {
        if !(header <= Names(contract) && OmittedAreOptional(contract, |header|)) {
          return Rejected(Reordered);
        }
        var narrower := repo.ResolveByHash(baseline);
        if narrower.Some? {
          return Resolved(narrower.value);
        }
        version := repo.Sync(baseline, CONTRACT);
        return Resolved(version);
      }
      if repo.rows[current.value].columns == observed {
        version := repo.Sync(baseline, CONTRACT);
        return Resolved(version);
      }
      var known := repo.ResolveByHash(observed);
      if known.Some? {
        return Resolved(known.value);
      }
      return Rejected(StorageFailure);
    }
  }

  // ----- what a contract-typed header can and cannot break --------------------------------

  ghost predicate Distinct<T>(s: seq<T>) {
    forall i, j :: 0 <= i < j < |s| ==> s[i] != s[j]
  }

  lemma {:induction false} TypeOfContractColumn(contract: seq<ColumnContract>, i: nat)
    requires Distinct(Names(contract)) && i < |contract|
    ensures TypeOf(contract, contract[i].name) == contract[i].typ
  {
    var last := |contract| - 1;
    assert Names(contract)[i] == contract[i].name && Names(contract)[last] == contract[last].name;
    if i < last {
      var init := contract[..last];
      assert Distinct(Names(init)) by {
        assert forall k :: 0 <= k < last ==> Names(init)[k] == Names(contract)[k];
      }
      TypeOfContractColumn(init, i);
    }
  }

  /** Nothing is ever retyped, and a break is exactly a required column missing by name. */
  lemma {:induction false} BreakIsAMissingRequiredColumn(contract: seq<ColumnContract>, header: seq<string>, k: nat)
    requires Distinct(Names(contract)) && k <= |contract|
    ensures var b := FirstBreak(Baseline(contract)[k..], Observed(contract, header), Optional(contract));
      && (b.Some? <==> exists i :: k <= i < |contract| && contract[i].name !in header && contract[i].name !in Optional(contract))
      && (b.Some? ==> b.value == Disappeared)
    decreases |contract| - k
  {
    if k < |contract| {
      var observed := Observed(contract, header);
      assert Baseline(contract)[k..][1..] == Baseline(contract)[k + 1..];
      BreakIsAMissingRequiredColumn(contract, header, k + 1);
      TypeOfContractColumn(contract, k);
      var found := Find(observed, contract[k].name);
      if contract[k].name in header {
        var j :| 0 <= j < |header| && header[j] == contract[k].name;
        assert observed[j].name == contract[k].name && observed[j] in observed;
      }
      if found.Some? {
        var j :| 0 <= j < |observed| && observed[j] == found.value;
        assert header[j] == contract[k].name;
      }
    }
  }

  lemma OptionalIsNotRequired(contract: seq<ColumnContract>, i: nat)
    requires Distinct(Names(contract)) && i < |contract|
    ensures contract[i].name in Optional(contract) <==> !contract[i].required
  {
    forall j | 0 <= j < |contract| && contract[j].name == contract[i].name ensures j == i {
      assert Names(contract)[i] == Names(contract)[j];
    }
  }

  // ----- the history invariant ------------------------------------------------------------

  /** Versions run 1, 2, ..; the last is the one current row; the contract is version 1 and
      nothing else; every later version widens it. */
  ghost predicate ValidHistory(contract: seq<ColumnContract>, rows: seq<Version>) {
    && (forall i :: 0 <= i < |rows| ==> rows[i].version == i + 1)
    && (forall i :: 0 <= i < |rows| ==> (rows[i].current <==> i == |rows| - 1))
    && (rows != [] ==> rows[0].columns == Baseline(contract) && rows[0].origin == CONTRACT)
    && (forall i :: 1 <= i < |rows| ==> Widens(contract, rows[i].columns) && rows[i].origin == INFERRED)
  }

  ghost predicate Widens(contract: seq<ColumnContract>, columns: seq<Column>) {
    Baseline(contract) <= columns && columns != Baseline(contract)
  }

  lemma {:induction false} MaxOfConsecutive(rows: seq<Version>, from: nat)
    requires forall i :: 0 <= i < |rows| ==> rows[i].version == from + i
    ensures rows != [] ==> MaxVersion(rows) == from + |rows| - 1
  {
    if |rows| > 1 {
      MaxOfConsecutive(rows[1..], from + 1);
    } else if |rows| == 1 {
      assert rows[1..] == [];
    }
  }

  lemma SyncKeepsHistory(contract: seq<ColumnContract>, rows: seq<Version>, columns: seq<Column>)
    requires ValidHistory(contract, rows) && rows != [] && Widens(contract, columns)
    ensures ValidHistory(contract, Synced(rows, columns, INFERRED))
  {
    MaxOfConsecutive(rows, 1);
  }

  /** The header matches the contract by position as far as both go, and what it leaves
      out is optional. */
  predicate Accepts(contract: seq<ColumnContract>, header: seq<string>) {
    || (Names(contract) <= header && (header == Names(contract) || HasAddition(contract, header)))
    || (header <= Names(contract) && forall i :: |header| <= i < |contract| ==> !contract[i].required)
  }

  lemma PrefixTypes(contract: seq<ColumnContract>, header: seq<string>)
    requires Distinct(Names(contract)) && Names(contract) <= header
    ensures Baseline(contract) <= Observed(contract, header)
    ensures header == Names(contract) <==> Observed(contract, header) == Baseline(contract)
  {
    forall i | 0 <= i < |contract| ensures Observed(contract, header)[i] == Baseline(contract)[i] {
      assert header[i] == Names(contract)[i];
      TypeOfContractColumn(contract, i);
    }
    if Observed(contract, header) == Baseline(contract) {
      assert |header| == |contract|;
    }
  }

  /** One file after the first: accepted exactly when its header accepts, with the version
      it resolves to and its effect on the history. */
  lemma LaterFile(contract: seq<ColumnContract>, header: seq<string>, rows: seq<Version>)
    requires Distinct(Names(contract)) && ValidHistory(contract, rows) && rows != []
    ensures var (after, r) := Resolve(contract, header, rows);
      && (r.Resolved? <==> Accepts(contract, header))
      && (r.Resolved? && header <= Names(contract) ==> r.version == 1)
      && (r.Resolved? && !(header <= Names(contract)) ==>
            after == Synced(rows, Observed(contract, header), INFERRED) && Widens(contract, Observed(contract, header))
            && after[|after| - 1].columns == Observed(contract, header) && r.version == |after|)
      && (!r.Resolved? || header <= Names(contract) ==> after == rows)
      && (r.Rejected? ==> r.code == Disappeared || r.code == Reordered)
  {
    BreakIsAMissingRequiredColumn(contract, header, 0);
    assert Baseline(contract)[0..] == Baseline(contract);
    MaxOfConsecutive(rows, 1);
    forall i | 0 <= i < |contract|
      ensures contract[i].name in Optional(contract) <==> !contract[i].required
      ensures contract[i].name == Names(contract)[i]
    {
      OptionalIsNotRequired(contract, i);
    }
    if Names(contract) <= header {
      PrefixTypes(contract, header);
      NamesAreInAWiderHeader(contract, header);
    } else if header <= Names(contract) {
      assert !HasAddition(contract, header);
    }
    var latest := |rows| - 1;
    assert rows[latest].current;
    assert CurrentRow(rows) == Some(latest);
  }

  lemma NamesAreInAWiderHeader(contract: seq<ColumnContract>, header: seq<string>)
    requires Names(contract) <= header
    ensures forall i :: 0 <= i < |contract| ==> contract[i].name in header
  {
    forall i | 0 <= i < |contract| ensures contract[i].name in header {
      assert header[i] == Names(contract)[i];
    }
  }

  // ----- main results ------------------------------------------------------------------------

  /** After the bootstrap a file with distinct column names is accepted if and only if the
      contract is a prefix of its header, or its header is a prefix of the contract and
      every column left out is optional. */
  lemma AcceptedExactlyWhenPrefix(contract: seq<ColumnContract>, header: seq<string>, rows: seq<Version>)
    requires Distinct(Names(contract)) && Distinct(header) && ValidHistory(contract, rows) && rows != []
    ensures Resolve(contract, header, rows).1.Resolved? <==>
      || Names(contract) <= header
      || (header <= Names(contract) && forall i :: |header| <= i < |contract| ==> !contract[i].required)
  {
    LaterFile(contract, header, rows);
    if Names(contract) <= header && header != Names(contract) {
      var last := |header| - 1;
      assert last >= |contract|;
      forall i | 0 <= i < |contract| ensures Names(contract)[i] != header[last] {
        assert Names(contract)[i] == header[i];
      }
      assert HasAddition(contract, header);
    }
  }

  /** Every file of a delivery, in order, against one fixed contract. */
  function Deliver(contract: seq<ColumnContract>, headers: seq<seq<string>>, rows: seq<Version>): seq<Version> {
    if headers == [] then rows
    else Deliver(contract, headers[1..], Resolve(contract, headers[0], rows).0)
  }

  lemma OneFileKeepsHistory(contract: seq<ColumnContract>, header: seq<string>, rows: seq<Version>)
    requires Distinct(Names(contract)) && ValidHistory(contract, rows)
    ensures ValidHistory(contract, Resolve(contract, header, rows).0)
    ensures Resolve(contract, header, rows).0 != []
  {
    if rows == [] {
      assert CurrentRow(rows).None?;
    } else {
      assert rows[|rows| - 1].current;
      LaterFile(contract, header, rows);
      if !(header <= Names(contract)) && Resolve(contract, header, rows).1.Resolved? {
        SyncKeepsHistory(contract, rows, Observed(contract, header));
      }
    }
  }

  /** Over any sequence of files: versions stay consecutive from 1 with exactly one current,
      and the contract is recorded exactly once, as version 1. */
  lemma {:induction false} AnyDeliveryKeepsHistory(contract: seq<ColumnContract>, headers: seq<seq<string>>, rows: seq<Version>)
    requires Distinct(Names(contract)) && ValidHistory(contract, rows)
    ensures ValidHistory(contract, Deliver(contract, headers, rows))
    ensures rows != [] || headers != [] ==> Deliver(contract, headers, rows) != []
    decreases |headers|
  {
    if headers != [] {
      OneFileKeepsHistory(contract, headers[0], rows);
      AnyDeliveryKeepsHistory(contract, headers[1..], Resolve(contract, headers[0], rows).0);
    }
  }

  lemma ContractIsRecordedOnce(contract: seq<ColumnContract>, headers: seq<seq<string>>)
    requires Distinct(Names(contract)) && headers != []
    ensures var rows := Deliver(contract, headers, []);
      && (forall i :: 0 <= i < |rows| ==> (rows[i].columns == Baseline(contract) <==> i == 0))
      && (forall i, j :: 0 <= i < |rows| && 0 <= j < |rows| && rows[i].current && rows[j].current ==> i == j)
      && CurrentRow(rows).Some?
  {
    AnyDeliveryKeepsHistory(contract, headers, []);
    var rows := Deliver(contract, headers, []);
    assert rows[|rows| - 1].current;
  }

  /** In any delivery, a contract-shaped or narrower file leaves the history alone and, when
      accepted, resolves to version 1; no lookup by hash ever fails. */
  lemma NarrowFilesLeaveHistoryAlone(contract: seq<ColumnContract>, headers: seq<seq<string>>, header: seq<string>)
    requires Distinct(Names(contract)) && headers != []
    ensures var rows := Deliver(contract, headers, []); var (after, r) := Resolve(contract, header, rows);
      && RowWithColumns(rows, Baseline(contract)) == Some(0)
      && r != Rejected(StorageFailure)
      && (header <= Names(contract) ==> after == rows && (r.Resolved? ==> r.version == 1))
  {
    AnyDeliveryKeepsHistory(contract, headers, []);
    LaterFile(contract, header, Deliver(contract, headers, []));
  }

  // ----- the positional loader ------------------------------------------------------------------

  /** The loader: wider rows are cut to the contract's width, narrower ones padded with NULL. */
  function Load(row: seq<string>, width: nat): (loaded: seq<Option<string>>)
    ensures |loaded| == width
  {
    seq(width, j requires 0 <= j < width => if j < |row| then Some(row[j]) else None)
  }

  /** What the row holds under a column's own name. */
  function ByName(header: seq<string>, row: seq<string>, name: string): Option<string>
    requires |row| == |header|
  {
    if header == [] then None
    else if header[0] == name then Some(row[0])
    else ByName(header[1..], row[1..], name)
  }

  ghost predicate LoadsByName(contract: seq<ColumnContract>, header: seq<string>, row: seq<string>)
    requires |row| == |header|
  {
    forall j :: 0 <= j < |contract| ==> Load(row, |contract|)[j] == ByName(header, row, contract[j].name)
  }

  lemma {:induction false} ByNameAt(header: seq<string>, row: seq<string>, i: nat)
    requires Distinct(header) && |row| == |header| && i < |header|
    ensures ByName(header, row, header[i]) == Some(row[i])
  {
    if i > 0 {
      assert header[0] != header[i];
      assert header[1..][i - 1] == header[i];
      ByNameAt(header[1..], row[1..], i - 1);
    }
  }

  lemma {:induction false} ByNameAbsent(header: seq<string>, row: seq<string>, name: string)
    requires |row| == |header| && name !in header
    ensures ByName(header, row, name) == None
  {
    if header != [] {
      assert header[0] in header;
      ByNameAbsent(header[1..], row[1..], name);
    }
  }

  lemma AlignedRowLoads(contract: seq<ColumnContract>, header: seq<string>, row: seq<string>)
    requires Distinct(Names(contract)) && Distinct(header) && |row| == |header|
    requires Names(contract) <= header || header <= Names(contract)
    ensures LoadsByName(contract, header, row)
  {
    forall j | 0 <= j < |contract|
      ensures Load(row, |contract|)[j] == ByName(header, row, contract[j].name)
    {
      assert Names(contract)[j] == contract[j].name;
      if j < |header| {
        assert header[j] == contract[j].name;
        ByNameAt(header, row, j);
      } else {
        forall i | 0 <= i < |header| ensures header[i] != contract[j].name {
          assert header[i] == Names(contract)[i];
        }
        ByNameAbsent(header, row, contract[j].name);
      }
    }
  }

  /** No accepted file after the first ever puts a value in the wrong column. */
  lemma AcceptedFileLoadsEveryValueInItsColumn(
    contract: seq<ColumnContract>, headers: seq<seq<string>>, header: seq<string>, row: seq<string>)
    requires Distinct(Names(contract)) && Distinct(header) && headers != [] && |row| == |header|
    requires Resolve(contract, header, Deliver(contract, headers, [])).1.Resolved?
    ensures LoadsByName(contract, header, row)
  {
    AnyDeliveryKeepsHistory(contract, headers, []);
    AcceptedExactlyWhenPrefix(contract, header, Deliver(contract, headers, []));
    AlignedRowLoads(contract, header, row);
  }

  /** The first file is accepted whatever its header; its rows all load correctly if and
      only if the header and the contract agree up to the shorter of the two. */
  lemma FirstFileLoadsCorrectlyExactlyWhenAligned(contract: seq<ColumnContract>, header: seq<string>)
    requires Distinct(Names(contract)) && Distinct(header)
    ensures Resolve(contract, header, []).1 == Resolved(1)
    ensures (forall row: seq<string> :: |row| == |header| ==> LoadsByName(contract, header, row)) <==>
      Names(contract) <= header || header <= Names(contract)
  {
    if Names(contract) <= header || header <= Names(contract) {
      forall row: seq<string> | |row| == |header| ensures LoadsByName(contract, header, row) {
        AlignedRowLoads(contract, header, row);
      }
    } else {
      var j := FirstMismatch(Names(contract), header);
      assert Names(contract)[j] == contract[j].name;
      var row := seq(|header|, i => if i == j then "x" else "y");
      assert Load(row, |contract|)[j] == Some("x");
      if contract[j].name in header {
        var i :| 0 <= i < |header| && header[i] == contract[j].name;
        ByNameAt(header, row, i);
      } else {
        ByNameAbsent(header, row, contract[j].name);
      }
      assert !LoadsByName(contract, header, row);
    }
  }

  lemma FirstMismatch(a: seq<string>, b: seq<string>) returns (j: nat)
    requires !(a <= b) && !(b <= a)
    ensures j < |a| && j < |b| && a[j] != b[j]
  {
    j := 0;
    while j < |a| && j < |b| && a[j] == b[j]
      invariant j <= |a| && j <= |b| && a[..j] == b[..j]
    {
      j := j + 1;
    }
  }

  // ----- when the contract itself changes --------------------------------------------------------

  predicate Recorded(rows: seq<Version>, columns: seq<Column>) {
    RowWithColumns(rows, columns).Some?
  }

  lemma RecordedExactlyWhen(rows: seq<Version>, columns: seq<Column>)
    ensures Recorded(rows, columns) <==> exists i :: 0 <= i < |rows| && rows[i].columns == columns
  {
  }

  /** A file shaped exactly like the contract is accepted if and only if that contract's
      columns are recorded somewhere in the history; it leaves the history as it is. */
  lemma ContractShapedFileAcceptedExactlyWhenRecorded(contract: seq<ColumnContract>, rows: seq<Version>)
    requires Distinct(Names(contract)) && CurrentRow(rows).Some?
    ensures var (after, r) := Resolve(contract, Names(contract), rows);
      && after == rows
      && (r.Resolved? <==> Recorded(rows, Baseline(contract)))
      && (r.Rejected? ==> r.code == StorageFailure)
  {
    var header := Names(contract);
    BreakIsAMissingRequiredColumn(contract, header, 0);
    assert Baseline(contract)[0..] == Baseline(contract);
    PrefixTypes(contract, header);
    NamesAreInAWiderHeader(contract, header);
    assert !HasAddition(contract, header);
  }

  /** The header stops before the contract does, and what it leaves out is optional. */
  predicate StrictlyNarrower(contract: seq<ColumnContract>, header: seq<string>) {
    header <= Names(contract) && header != Names(contract) && OmittedAreOptional(contract, |header|)
  }

  lemma SyncedRecords(rows: seq<Version>, columns: seq<Column>, origin: Origin, others: seq<Column>)
    ensures CurrentRow(Synced(rows, columns, origin)).Some?
    ensures Recorded(Synced(rows, columns, origin), others) <==> Recorded(rows, others) || others == columns
  {
    var after := Synced(rows, columns, origin);
    RecordedExactlyWhen(rows, others);
    RecordedExactlyWhen(after, others);
    if InSync(rows, columns) {
      assert rows[CurrentRow(rows).value].columns == columns;
    } else {
      assert |after| == |rows| + 1 && after[|rows|].columns == columns;
      assert forall i :: 0 <= i < |rows| ==> after[i].columns == rows[i].columns;
    }
  }

  /** Names of its own keep a wider file from recording the contract's columns. */
  lemma AdditionIsNotTheContract(contract: seq<ColumnContract>, header: seq<string>)
    requires HasAddition(contract, header)
    ensures Observed(contract, header) != Baseline(contract)
  {
    var i :| 0 <= i < |header| && header[i] !in Names(contract);
    assert Observed(contract, header)[i].name == header[i];
    assert i < |contract| ==> Baseline(contract)[i].name == Names(contract)[i];
  }

  lemma NarrowerHeader(contract: seq<ColumnContract>, header: seq<string>)
    requires Distinct(Names(contract)) && StrictlyNarrower(contract, header)
    ensures FirstBreak(Baseline(contract), Observed(contract, header), Optional(contract)).None?
    ensures !HasAddition(contract, header)
  {
    BreakIsAMissingRequiredColumn(contract, header, 0);
    assert Baseline(contract)[0..] == Baseline(contract);
    forall i | 0 <= i < |contract| && contract[i].name !in Optional(contract) ensures contract[i].name in header {
      assert i < |header| && header[i] == Names(contract)[i];
    }
  }

  lemma NarrowerFileRecords(contract: seq<ColumnContract>, header: seq<string>, rows: seq<Version>)
    requires Distinct(Names(contract)) && CurrentRow(rows).Some? && StrictlyNarrower(contract, header)
    ensures var (after, r) := Resolve(contract, header, rows);
      CurrentRow(after).Some? && Recorded(after, Baseline(contract)) && r.Resolved?
  {
    SyncedRecords(rows, Baseline(contract), CONTRACT, Baseline(contract));
    NarrowerHeader(contract, header);
  }

  lemma WiderFileRecordsItself(contract: seq<ColumnContract>, header: seq<string>, rows: seq<Version>)
    requires CurrentRow(rows).Some? && HasAddition(contract, header)
    ensures var after := Resolve(contract, header, rows).0;
      CurrentRow(after).Some? && (Recorded(after, Baseline(contract)) <==> Recorded(rows, Baseline(contract)))
  {
    SyncedRecords(rows, Observed(contract, header), INFERRED, Baseline(contract));
    AdditionIsNotTheContract(contract, header);
  }

  /** One file records the contract if it is strictly narrower, and then it is accepted; no
      other file does, and none removes what is recorded. */
  lemma OneFileRecordsTheContract(contract: seq<ColumnContract>, header: seq<string>, rows: seq<Version>)
    requires Distinct(Names(contract)) && CurrentRow(rows).Some?
    ensures var (after, r) := Resolve(contract, header, rows);
      && CurrentRow(after).Some?
      && (Recorded(after, Baseline(contract)) <==>
            Recorded(rows, Baseline(contract)) || StrictlyNarrower(contract, header))
      && (StrictlyNarrower(contract, header) ==> r.Resolved?)
  {
    if StrictlyNarrower(contract, header) {
      NarrowerFileRecords(contract, header, rows);
    } else if header == Names(contract) {
      ContractShapedFileAcceptedExactlyWhenRecorded(contract, rows);
    } else if HasAddition(contract, header) {
      WiderFileRecordsItself(contract, header, rows);
    }
  }

  lemma {:induction false} DeliveryRecordsTheContract(
    contract: seq<ColumnContract>, headers: seq<seq<string>>, rows: seq<Version>)
    requires Distinct(Names(contract)) && CurrentRow(rows).Some?
    ensures var after := Deliver(contract, headers, rows);
      && CurrentRow(after).Some?
      && (Recorded(after, Baseline(contract)) <==>
            || Recorded(rows, Baseline(contract))
            || exists i :: 0 <= i < |headers| && StrictlyNarrower(contract, headers[i]))
    decreases |headers|
  {
    if headers != [] {
      OneFileRecordsTheContract(contract, headers[0], rows);
      DeliveryRecordsTheContract(contract, headers[1..], Resolve(contract, headers[0], rows).0);
      assert forall i :: 1 <= i < |headers| ==> headers[i] == headers[1..][i - 1];
    }
  }

  /** After a contract edit, a file that matches the new contract exactly is accepted if and
      only if those columns were recorded before the edit or a strictly narrower file has been
      delivered since; otherwise it is refused with a storage error, whatever wider,
      reordered or contract-shaped files came before it. */
  lemma EditedContractAcceptsItsOwnFilesExactlyWhen(
    before: seq<ColumnContract>, delivered: seq<seq<string>>, after: seq<ColumnContract>, headers: seq<seq<string>>)
    requires Distinct(Names(before)) && Distinct(Names(after)) && delivered != []
    ensures var history := Deliver(before, delivered, []);
      var (end, r) := Resolve(after, Names(after), Deliver(after, headers, history));
      && (r.Resolved? <==>
            || Recorded(history, Baseline(after))
            || exists i :: 0 <= i < |headers| && StrictlyNarrower(after, headers[i]))
      && (r.Rejected? ==> r.code == StorageFailure)
      && end == Deliver(after, headers, history)
  {
    var history := Deliver(before, delivered, []);
    AnyDeliveryKeepsHistory(before, delivered, []);
    assert history[|history| - 1].current;
    DeliveryRecordsTheContract(after, headers, history);
    ContractShapedFileAcceptedExactlyWhenRecorded(after, Deliver(after, headers, history));
  }
}
