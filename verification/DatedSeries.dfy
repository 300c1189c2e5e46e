/**
  The dated backfill series: one file a day, each drawing from streams keyed by names,
  with injected anomalies.
 */
module DatedSeries {
  import opened CsvText
  import opened DecimalDigits
  import D = DecimalRendering
  import opened Options
  import opened Utf8

  const CUSTOMER_ID_BASE: nat := 2_100_100_000
  const ORDER_ID_BASE: nat := 2_110_000_000
  const ID_DAY_MULTIPLIER: nat := 10_000
  const REFERENCED_MEMBERS: nat := 30

  function NameAt(i: nat): string {
    match i
    case 0 => "Anna Kowalski"
    case 1 => "Piotr Nowak"
    case 2 => "Maria Wisniewska"
    case 3 => "Jan Wojcik"
    case 4 => "Emily Johnson"
    case 5 => "James Smith"
    case 6 => "Sophie Muller"
    case 7 => "Lukas Schmidt"
    case 8 => "Chiara Rossi"
    case 9 => "Marco Bianchi"
    case 10 => "Fatima Al-Sayed"
    case 11 => "Ahmed Hassan"
    case 12 => "Yuki Tanaka"
    case 13 => "Haruto Sato"
    case 14 => "Wei Zhang"
    case 15 => "Li Chen"
    case 16 => "Olga Ivanova"
    case 17 => "Dmitri Petrov"
    case 18 => "Lucas Silva"
    case _ => "Ana Santos"
  }

  function Names(): (names: seq<string>)
    ensures |names| == 20
  {
    seq(20, (i: nat) => NameAt(i))
  }

  function CountryAt(i: nat): string {
    match i
    case 0 => "PL"
    case 1 => "US"
    case 2 => "GB"
    case 3 => "DE"
    case 4 => "FR"
    case 5 => "ES"
    case 6 => "IT"
    case 7 => "NL"
    case 8 => "SE"
    case 9 => "NO"
    case 10 => "DK"
    case 11 => "FI"
    case 12 => "JP"
    case 13 => "CN"
    case 14 => "BR"
    case 15 => "IN"
    case 16 => "CA"
    case _ => "AU"
  }

  function Countries(): (names: seq<string>)
    ensures |names| == 18
  {
    seq(18, (i: nat) => CountryAt(i))
  }

  function BirthDateAt(i: nat): string {
    match i
    case 0 => "1950-03-14"
    case 1 => "1958-09-18"
    case 2 => "1964-06-11"
    case 3 => "1970-05-06"
    case 4 => "1976-07-08"
    case 5 => "1982-04-30"
    case 6 => "1988-12-01"
    case _ => "1994-10-19"
  }

  function BirthDates(): (names: seq<string>)
    ensures |names| == 8
  {
    seq(8, (i: nat) => BirthDateAt(i))
  }

  datatype Dataset = Customers | Orders

  function Columns(d: Dataset): Record {
    match d
    case Customers => ["customer_id", "name", "country", "birth_date", "event_ts", "signup_country"]
    case Orders => ["order_id", "customer_id", "order_date", "amount"]
  }

  function ExtraColumn(d: Dataset): string {
    if d == Customers then "loyalty_tier" else "discount_code"
  }

  function ExtraValues(d: Dataset): seq<string> {
    if d == Customers then ["bronze", "silver", "gold"] else ["NONE", "SAVE10", "SAVE20"]
  }

  /** Dates are day numbers. A file is named by its dataset and date. */
  datatype FileName = FileName(dataset: Dataset, date: int)

  /** The names that key the private streams. */
  datatype StreamName = BaselineOf(id: nat) | ChangeOf(id: nat) | CorrectionOf(id: nat) | FileOf(file: FileName)

  /** What a master seed fixes: `draw(name, i, count)` is the i-th product of the named
      stream, truncated. `dashed` is the `%Y-%m-%d` form of a date. */
  datatype World = World(draw: (StreamName, nat, int) -> nat, dashed: int -> string)

  datatype Params = Params(
    dataset: Dataset,
    start: int,
    days: nat,
    rows: nat,
    gap: int,
    schemaChange: int,
    lateDay: int,
    lateOffset: int,
    changeDay: Option<int>,
    changeMember: Option<nat>,
    correctionDay: Option<int>,
    correctionMember: Option<nat>,
    correctionOffset: int,
    missingDay: Option<int>,
    missingMember: Option<nat>,
    massDay: Option<int>,
    massMembers: Option<seq<nat>>)

  // ----- validation --------------------------------------------------------------

  /** `_validate_customers_only_params`. */
  predicate CustomersOnly(p: Params) {
    p.dataset == Customers ||
    (p.changeDay.None? && p.changeMember.None? && p.correctionDay.None? && p.correctionMember.None?
     && p.missingDay.None? && p.missingMember.None? && p.massDay.None? && p.massMembers.None?)
  }

  /** `_validate_paired_params`. */
  predicate Paired(p: Params) {
    && (p.changeDay.None? <==> p.changeMember.None?)
    && (p.correctionDay.None? <==> p.correctionMember.None?)
    && (p.missingDay.None? <==> p.missingMember.None?)
    && (p.massDay.None? <==> p.massMembers.None?)
  }

  datatype Anomaly = AttributeChange | LateCorrection | MissingCustomer | MassDelete

  datatype Target = Target(day: int, member: nat, anomaly: Anomaly)

  function Single(day: Option<int>, member: Option<nat>, anomaly: Anomaly): seq<Target> {
    if day.Some? && member.Some? then [Target(day.value, member.value, anomaly)] else []
  }

  function Targets(p: Params): seq<Target> {
    Single(p.changeDay, p.changeMember, AttributeChange)
    + Single(p.correctionDay, p.correctionMember, LateCorrection)
    + Single(p.missingDay, p.missingMember, MissingCustomer)
    + if p.massDay.Some? && p.massMembers.Some?
      then seq(|p.massMembers.value|, i requires 0 <= i < |p.massMembers.value| =>
        Target(p.massDay.value, p.massMembers.value[i], MassDelete))
      else []
  }

  predicate Collide(a: Target, b: Target) {
    a.day == b.day && a.member == b.member && a.anomaly != b.anomaly
  }

  /** `_check_no_anomaly_collisions`: false is the ValueError. */
  method CheckNoAnomalyCollisions(p: Params) returns (ok: bool)
    ensures ok <==> forall a, b :: a in Targets(p) && b in Targets(p) ==> !Collide(a, b)
  {
    var targets := Targets(p);
    var seen: map<(int, nat), Anomaly> := map[];
    for i := 0 to |targets|
      invariant HasSeen(seen, targets, i)
    {
      var t := targets[i];
      var key := (t.day, t.member);
      if key in seen && seen[key] != t.anomaly {
        assert Collide(Target(key.0, key.1, seen[key]), t);
        return false;
      }
      SeeOneMore(seen, targets, i);
      seen := seen[key := t.anomaly];
    }
    AllSeen(seen, targets);
    return true;
  }

  lemma SeeOneMore(seen: map<(int, nat), Anomaly>, targets: seq<Target>, n: nat)
    requires n < |targets| && HasSeen(seen, targets, n)
    requires var key := (targets[n].day, targets[n].member); key in seen ==> seen[key] == targets[n].anomaly
    ensures HasSeen(seen[(targets[n].day, targets[n].member) := targets[n].anomaly], targets, n + 1)
  {
    assert Target(targets[n].day, targets[n].member, targets[n].anomaly) == targets[n];
  }

  lemma AllSeen(seen: map<(int, nat), Anomaly>, targets: seq<Target>)
    requires HasSeen(seen, targets, |targets|)
    ensures forall a, b :: a in targets && b in targets ==> !Collide(a, b)
  {
  }

  /** The first n targets have been seen, each with the only anomaly of its day and member. */
  ghost predicate HasSeen(seen: map<(int, nat), Anomaly>, targets: seq<Target>, n: nat)
    requires n <= |targets|
  {
    && (forall j :: 0 <= j < n ==>
          (targets[j].day, targets[j].member) in seen && seen[(targets[j].day, targets[j].member)] == targets[j].anomaly)
    && (forall key :: key in seen ==> Target(key.0, key.1, seen[key]) in targets)
  }

  predicate Hits(day: Option<int>, member: Option<nat>, d: int, m: nat) {
    day == Some(d) && member == Some(m)
  }

  predicate HitsAny(day: Option<int>, members: Option<seq<nat>>, d: int, m: nat) {
    day == Some(d) && members.Some? && m in members.value
  }

  lemma TargetsAre(p: Params, t: Target)
    ensures t in Targets(p) <==> match t.anomaly
      case AttributeChange => Hits(p.changeDay, p.changeMember, t.day, t.member)
      case LateCorrection => Hits(p.correctionDay, p.correctionMember, t.day, t.member)
      case MissingCustomer => Hits(p.missingDay, p.missingMember, t.day, t.member)
      case MassDelete => HitsAny(p.massDay, p.massMembers, t.day, t.member)
  {
    var change := Single(p.changeDay, p.changeMember, AttributeChange);
    var correction := Single(p.correctionDay, p.correctionMember, LateCorrection);
    var missing := Single(p.missingDay, p.missingMember, MissingCustomer);
    var mass := Targets(p)[|change + correction + missing|..];
    assert Targets(p) == change + correction + missing + mass;
    if HitsAny(p.massDay, p.massMembers, t.day, t.member) && t.anomaly == MassDelete {
      var i :| 0 <= i < |p.massMembers.value| && p.massMembers.value[i] == t.member;
      assert mass[i] == t;
    }
  }

  /** A parameter set has no collision if and only if no day and member is hit by two of the
      four anomalies; a member listed twice for one mass deletion is none. */
  lemma NoCollisionExactlyWhen(p: Params)
    ensures (forall a, b :: a in Targets(p) && b in Targets(p) ==> !Collide(a, b)) <==>
      forall d, m: nat ::
        var change, correction := Hits(p.changeDay, p.changeMember, d, m), Hits(p.correctionDay, p.correctionMember, d, m);
        var missing, mass := Hits(p.missingDay, p.missingMember, d, m), HitsAny(p.massDay, p.massMembers, d, m);
        !(change && correction) && !(change && missing) && !(change && mass)
        && !(correction && missing) && !(correction && mass) && !(missing && mass)
  {
    forall t ensures t in Targets(p) <==> match t.anomaly
      case AttributeChange => Hits(p.changeDay, p.changeMember, t.day, t.member)
      case LateCorrection => Hits(p.correctionDay, p.correctionMember, t.day, t.member)
      case MissingCustomer => Hits(p.missingDay, p.missingMember, t.day, t.member)
      case MassDelete => HitsAny(p.massDay, p.massMembers, t.day, t.member)
    {
      TargetsAre(p, t);
    }
    if forall a, b :: a in Targets(p) && b in Targets(p) ==> !Collide(a, b) {
      forall d, m: nat
        ensures
          var change, correction := Hits(p.changeDay, p.changeMember, d, m), Hits(p.correctionDay, p.correctionMember, d, m);
          var missing, mass := Hits(p.missingDay, p.missingMember, d, m), HitsAny(p.massDay, p.massMembers, d, m);
          !(change && correction) && !(change && missing) && !(change && mass)
          && !(correction && missing) && !(correction && mass) && !(missing && mass)
      {
        var change, correction := Target(d, m, AttributeChange), Target(d, m, LateCorrection);
        var missing, mass := Target(d, m, MissingCustomer), Target(d, m, MassDelete);
        assert Collide(change, correction) && Collide(change, missing) && Collide(change, mass);
        assert Collide(correction, missing) && Collide(correction, mass) && Collide(missing, mass);
      }
    }
  }

  /** The three pairs of anomalies whose meeting on one member would be ambiguous on one day. */
  lemma CheckedMeans(p: Params, day: int, m: nat)
    requires forall a, b :: a in Targets(p) && b in Targets(p) ==> !Collide(a, b)
    ensures p.correctionDay == Some(day) && p.correctionMember == Some(m) ==> !IsRemoved(p, day, m)
  {
    if p.correctionDay == Some(day) && p.correctionMember == Some(m) {
      var correction := Target(day, m, LateCorrection);
      assert correction in Single(p.correctionDay, p.correctionMember, LateCorrection);
      assert correction in Targets(p);
      if p.missingMember == Some(m) && p.missingDay == Some(day) {
        var missing := Target(day, m, MissingCustomer);
        assert missing in Single(p.missingDay, p.missingMember, MissingCustomer);
        assert missing in Targets(p);
        assert Collide(correction, missing);
      }
      if p.massDay == Some(day) && p.massMembers.Some? && m in p.massMembers.value {
        var i :| 0 <= i < |p.massMembers.value| && p.massMembers.value[i] == m;
        var others := |Targets(p)| - |p.massMembers.value|;
        assert Targets(p)[others + i] == Target(day, m, MassDelete);
        assert Collide(correction, Targets(p)[others + i]);
      }
    }
  }

  // ----- drawing -------------------------------------------------------------------

  function Index(w: World, name: StreamName, i: nat, count: nat): nat
    requires count > 0
    ensures Index(w, name, i, count) < count
  {
    var k := w.draw(name, i, count);
    if k <= count - 1 then k else count - 1
  }

  /** `_pick`. */
  function Pick(w: World, name: StreamName, i: nat, values: seq<string>): string
    requires values != []
  {
    values[Index(w, name, i, |values|)]
  }

  /** `_pick_excluding`: an index wrap instead of a second draw. */
  function PickExcluding(w: World, name: StreamName, i: nat, values: seq<string>, exclude: string): string
    requires values != []
  {
    var index := Index(w, name, i, |values|);
    if values[index] == exclude then Next(values, index) else values[index]
  }

  /** The cyclic neighbour. */
  function Next(values: seq<string>, j: nat): string
    requires j < |values|
  {
    values[(j + 1) % |values|]
  }

  predicate NeighboursDiffer(values: seq<string>) {
    forall i :: 0 <= i < |values| ==> values[i] != Next(values, i)
  }

  /** The wrap excludes the given value on every draw if and only if the value's occurrences
      are never followed by itself. */
  lemma ExcludedIsNeverPickedExactlyWhen(dashed: int -> string, name: StreamName, i: nat, values: seq<string>,
                                         exclude: string)
    requires values != []
    ensures (forall draw :: PickExcluding(World(draw, dashed), name, i, values, exclude) != exclude) <==>
            (forall j :: 0 <= j < |values| && values[j] == exclude ==> Next(values, j) != exclude)
  {
    if j :| 0 <= j < |values| && values[j] == exclude && Next(values, j) == exclude {
      var draw: (StreamName, nat, int) -> nat := (n, k, c) => j;
      assert Index(World(draw, dashed), name, i, |values|) == j;
      assert PickExcluding(World(draw, dashed), name, i, values, exclude) == exclude;
    }
  }

  lemma PoolsDiffer()
    ensures NeighboursDiffer(Names()) && NeighboursDiffer(Countries())
  {
    forall i | 0 <= i < |Names()| ensures Names()[i] != Next(Names(), i) {
      assert NameAt(i) != NameAt((i + 1) % 20);
    }
    forall i | 0 <= i < |Countries()| ensures Countries()[i] != Next(Countries(), i) {
      assert CountryAt(i) != CountryAt((i + 1) % 18);
    }
  }

  datatype Profile = Profile(name: string, country: string, birthDate: string, signupCountry: string)

  /** `_customer_baseline`: keyed by the customer alone. */
  function Baseline(w: World, id: nat): Profile {
    var s := BaselineOf(id);
    Profile(Pick(w, s, 0, Names()), Pick(w, s, 1, Countries()), Pick(w, s, 2, BirthDates()), Pick(w, s, 3, Countries()))
  }

  /** `_derive_override_values`: name and country of a change or correction. */
  function Override(w: World, s: StreamName, base: Profile): Profile {
    base.(name := PickExcluding(w, s, 0, Names(), base.name), country := PickExcluding(w, s, 1, Countries(), base.country))
  }

  /** A change and a correction always differ from the baseline in both fields. */
  lemma OverrideIsAChange(w: World, s: StreamName, base: Profile)
    ensures Override(w, s, base).name != base.name && Override(w, s, base).country != base.country
    ensures Override(w, s, base).birthDate == base.birthDate && Override(w, s, base).signupCountry == base.signupCountry
  {
    PoolsDiffer();
  }

  // ----- one customers file -----------------------------------------------------------

  function IdOf(m: nat): nat {
    CUSTOMER_ID_BASE + m
  }

  function Named(p: Params, d: int): FileName {
    FileName(p.dataset, p.start + d)
  }

  predicate HasExtra(p: Params, d: int) {
    d >= p.schemaChange
  }

  predicate IsMissing(p: Params, d: int, m: nat) {
    p.missingMember == Some(m) && p.missingDay == Some(d)
  }

  predicate IsMassDeleted(p: Params, d: int, m: nat) {
    p.massDay == Some(d) && p.massMembers.Some? && m in p.massMembers.value
  }

  predicate IsRemoved(p: Params, d: int, m: nat) {
    IsMissing(p, d, m) || IsMassDeleted(p, d, m)
  }

  predicate IsChanged(p: Params, d: int, m: nat) {
    p.changeMember == Some(m) && p.changeDay.Some? && d >= p.changeDay.value
  }

  predicate HasCorrection(p: Params, d: int) {
    p.correctionMember.Some? && p.correctionDay == Some(d)
  }

  function Stamp(w: World, date: int): string {
    w.dashed(date) + "T08:15:00Z"
  }

  function Extra(w: World, p: Params, d: int, k: nat): Record {
    if HasExtra(p, d) then [Pick(w, FileOf(Named(p, d)), k, ExtraValues(Customers))] else []
  }

  /** A member's row; k is the number of rows before it, which is its draw for the extra column. */
  function MemberRow(w: World, p: Params, d: int, m: nat, k: nat): Record {
    var base := Baseline(w, IdOf(m));
    var shown := if IsChanged(p, d, m) then Override(w, ChangeOf(IdOf(m)), base) else base;
    var late := d == p.lateDay && m == p.rows / 2;
    var date := p.start + d - if late then p.lateOffset else 0;
    [Digits(IdOf(m)), shown.name, shown.country, base.birthDate, Stamp(w, date), base.signupCountry] + Extra(w, p, d, k)
  }

  /** The extra row a late correction arrives as. */
  function CorrectionRow(w: World, p: Params, d: int, k: nat): Record
    requires p.correctionMember.Some?
  {
    var id := IdOf(p.correctionMember.value);
    var base := Baseline(w, id);
    var corrected := Override(w, CorrectionOf(id), base);
    [Digits(id), corrected.name, corrected.country, base.birthDate,
     Stamp(w, p.start + d - p.correctionOffset), base.signupCountry] + Extra(w, p, d, k)
  }

  /** The members resent on day d, ascending. */
  function Kept(p: Params, d: int, n: nat): seq<nat> {
    if n == 0 then []
    else Kept(p, d, n - 1) + if IsRemoved(p, d, n - 1) then [] else [n - 1]
  }

  function MemberRows(w: World, p: Params, d: int, kept: seq<nat>): seq<Record> {
    seq(|kept|, k requires 0 <= k < |kept| => MemberRow(w, p, d, kept[k], k))
  }

  /** The roster without the removed members, then the correction. */
  function CustomerRows(w: World, p: Params, d: int): seq<Record> {
    var kept := Kept(p, d, p.rows);
    MemberRows(w, p, d, kept) + if HasCorrection(p, d) then [CorrectionRow(w, p, d, |kept|)] else []
  }

  lemma KeepOne(w: World, p: Params, d: int, m: nat)
    requires !IsRemoved(p, d, m)
    ensures var before := Kept(p, d, m);
      MemberRows(w, p, d, Kept(p, d, m + 1)) == MemberRows(w, p, d, before) + [MemberRow(w, p, d, m, |before|)]
  {
  }

  lemma MemberRowParts(w: World, p: Params, d: int, m: nat, k: nat, name: string, country: string, stamp: string)
    requires var base := Baseline(w, IdOf(m));
      var shown := if IsChanged(p, d, m) then Override(w, ChangeOf(IdOf(m)), base) else base;
      name == shown.name && country == shown.country
    requires stamp == Stamp(w, p.start + d - if d == p.lateDay && m == p.rows / 2 then p.lateOffset else 0)
    ensures var base := Baseline(w, IdOf(m));
      MemberRow(w, p, d, m, k) ==
      [Digits(IdOf(m)), name, country, base.birthDate, stamp, base.signupCountry] + Extra(w, p, d, k)
  {
  }

  /** One iteration's row: baseline, change, late stamp, extra column. */
  method RenderMember(w: World, p: Params, d: int, m: nat, ghost k: nat, drawn0: nat) returns (row: Record, drawn: nat)
    requires HasExtra(p, d) ==> drawn0 == k
    ensures row == MemberRow(w, p, d, m, k)
    ensures drawn == drawn0 + if HasExtra(p, d) then 1 else 0
  {
    drawn := drawn0;
    var base := Baseline(w, IdOf(m));
    var name, country := base.name, base.country;
    if p.changeMember == Some(m) && p.changeDay.Some? && d >= p.changeDay.value {
      var changed := Override(w, ChangeOf(IdOf(m)), base);
      name, country := changed.name, changed.country;
    }
    var stamp := Stamp(w, p.start + d);
    if d == p.lateDay && m == p.rows / 2 {
      stamp := Stamp(w, p.start + d - p.lateOffset);
    }
    MemberRowParts(w, p, d, m, k, name, country, stamp);
    row := [Digits(IdOf(m)), name, country, base.birthDate, stamp, base.signupCountry];
    if HasExtra(p, d) {
      row := row + [Pick(w, FileOf(Named(p, d)), drawn, ExtraValues(Customers))];
      drawn := drawn + 1;
    }
  }

  method RenderCorrection(w: World, p: Params, d: int, ghost k: nat, drawn: nat) returns (row: Record)
    requires HasCorrection(p, d) && (HasExtra(p, d) ==> drawn == k)
    ensures row == CorrectionRow(w, p, d, k)
  {
    var id := IdOf(p.correctionMember.value);
    var base := Baseline(w, id);
    var corrected := Override(w, CorrectionOf(id), base);
    row := [Digits(id), corrected.name, corrected.country, base.birthDate,
            Stamp(w, p.start + d - p.correctionOffset), base.signupCountry];
    if HasExtra(p, d) {
      row := row + [Pick(w, FileOf(Named(p, d)), drawn, ExtraValues(Customers))];
    }
  }

  /** `_render_customer_day_lines`; `drawn` is the state of the file's own stream. */
  method RenderCustomerDayLines(w: World, p: Params, d: int) returns (rows: seq<Record>)
    ensures rows == CustomerRows(w, p, d)
  {
    rows := [];
    var drawn := 0;
    for m := 0 to p.rows
      invariant rows == MemberRows(w, p, d, Kept(p, d, m))
      invariant HasExtra(p, d) ==> drawn == |rows|
    {
      if p.missingMember.Some? && p.missingDay == Some(d) && p.missingMember.value == m {
        continue;
      }
      if p.massDay == Some(d) && m in (if p.massMembers.Some? then p.massMembers.value else []) {
        continue;
      }
      var row;
      row, drawn := RenderMember(w, p, d, m, |rows|, drawn);
      KeepOne(w, p, d, m);
      rows := rows + [row];
    }
    if p.correctionMember.Some? && p.correctionDay == Some(d) {
      var row := RenderCorrection(w, p, d, |rows|, drawn);
      rows := rows + [row];
    }
  }

  // ----- one orders file ----------------------------------------------------------------

  const AMOUNT: D.Column := D.Column(1.0, 9999.99, 2, ".")

  function OrderId(d: nat, row: nat): nat {
    ORDER_ID_BASE + d * ID_DAY_MULTIPLIER + row
  }

  function OrderCustomer(k: nat): string {
    Digits(IdOf(k))
  }

  /** Draws each row takes from the file's stream. */
  function DrawsPerRow(p: Params, d: int): nat {
    if HasExtra(p, d) then 3 else 2
  }

  /** `_render_row` with the extra column; `at` is the row's first draw. */
  function OrderRow(w: World, p: Params, d: nat, row: nat, at: nat): Record {
    var s := FileOf(Named(p, d));
    var late := d == p.lateDay && row == p.rows / 2;
    var date := if late then p.start + d - p.lateOffset else p.start + d;
    [Digits(OrderId(d, row)),
     OrderCustomer(Index(w, s, at, REFERENCED_MEMBERS)),
     w.dashed(date),
     D.Render(AMOUNT, D.Units(AMOUNT, w.draw(s, at + 1, D.Span(AMOUNT))))]
    + if HasExtra(p, d) then [Pick(w, s, at + 2, ExtraValues(Orders))] else []
  }

  function OrderRows(w: World, p: Params, d: nat): seq<Record> {
    seq(p.rows, r requires 0 <= r < p.rows => OrderRow(w, p, d, r, r * DrawsPerRow(p, d)))
  }

  /** The orders branch of the day loop; `drawn` is the state of the file's own stream. */
  method RenderOrderLines(w: World, p: Params, d: nat) returns (rows: seq<Record>)
    ensures rows == OrderRows(w, p, d)
  {
    rows := [];
    var drawn := 0;
    for r := 0 to p.rows
      invariant rows == OrderRows(w, p, d)[..r] && drawn == r * DrawsPerRow(p, d)
    {
      rows := rows + [OrderRow(w, p, d, r, drawn)];
      drawn := drawn + DrawsPerRow(p, d);
      assert (r + 1) * DrawsPerRow(p, d) == r * DrawsPerRow(p, d) + DrawsPerRow(p, d);
    }
  }

  // ----- the series -----------------------------------------------------------------------

  function Header(p: Params, d: int): Record {
    Columns(p.dataset) + if HasExtra(p, d) then [ExtraColumn(p.dataset)] else []
  }

  function DayRows(w: World, p: Params, d: nat): seq<Record> {
    [Header(p, d)] + if p.dataset == Customers then CustomerRows(w, p, d) else OrderRows(w, p, d)
  }

  function Body(rows: seq<Record>): seq<Byte> {
    Encode(Concat(TableLines(rows, ',', seq(|rows|, i => "\r\n"))))
  }

  function DayFile(w: World, p: Params, d: nat): seq<Byte> {
    Body(DayRows(w, p, d))
  }

  /** The files of the first n days: one a day, none on the gap day. */
  function FileNames(p: Params, n: nat): seq<FileName> {
    if n == 0 then []
    else FileNames(p, n - 1) + if n - 1 == p.gap then [] else [Named(p, n - 1)]
  }

  predicate Acceptable(p: Params) {
    && CustomersOnly(p) && Paired(p)
    && forall a, b :: a in Targets(p) && b in Targets(p) ==> !Collide(a, b)
  }

  /** The members whose override values are looked up by index. */
  predicate IndicesExist(p: Params) {
    && (p.changeMember.Some? ==> p.changeMember.value < p.rows)
    && (p.correctionMember.Some? ==> p.correctionMember.value < p.rows)
  }

  /** `Rejected` is the ValueError, `BadIndex` the IndexError. */
  datatype Outcome = Series(files: map<FileName, seq<Byte>>, filenames: seq<FileName>) | Rejected | BadIndex

  /** The files of the first n days. */
  ghost predicate FilesTo(w: World, p: Params, n: nat, files: map<FileName, seq<Byte>>, filenames: seq<FileName>) {
    && filenames == FileNames(p, n)
    && (forall name :: name in files <==> name in filenames)
    && (forall d: nat :: d < n && d != p.gap ==> Named(p, d) in files && files[Named(p, d)] == DayFile(w, p, d))
  }

  lemma AddDay(w: World, p: Params, d: nat, files: map<FileName, seq<Byte>>, filenames: seq<FileName>)
    requires FilesTo(w, p, d, files, filenames)
    ensures if d == p.gap then FilesTo(w, p, d + 1, files, filenames)
            else FilesTo(w, p, d + 1, files[Named(p, d) := DayFile(w, p, d)], filenames + [Named(p, d)])
  {
    if d != p.gap {
      var name, file := Named(p, d), DayFile(w, p, d);
      var files', filenames' := files[name := file], filenames + [name];
      forall e: nat | e < d + 1 && e != p.gap ensures Named(p, e) in files' && files'[Named(p, e)] == DayFile(w, p, e) {
        assert e < d ==> Named(p, e) != name;
      }
      assert forall other :: other in filenames' <==> other in filenames || other == name;
    }
  }

  method RenderDay(w: World, p: Params, d: nat) returns (file: seq<Byte>)
    ensures file == DayFile(w, p, d)
  {
    var rows;
    if p.dataset == Customers {
      rows := RenderCustomerDayLines(w, p, d);
    } else {
      rows := RenderOrderLines(w, p, d);
    }
    file := Body([Header(p, d)] + rows);
  }

  method GenerateDatedSeries(w: World, p: Params) returns (r: Outcome)
    ensures r.Rejected? <==> !Acceptable(p)
    ensures r.BadIndex? <==> Acceptable(p) && !IndicesExist(p)
    ensures r.Series? ==> FilesTo(w, p, p.days, r.files, r.filenames)
  {
    if !CustomersOnly(p) || !Paired(p) {
      return Rejected;
    }
    var ok := CheckNoAnomalyCollisions(p);
    if !ok {
      return Rejected;
    }
    if !IndicesExist(p) {
      return BadIndex;
    }
    var files: map<FileName, seq<Byte>> := map[];
    var filenames := [];
    for d := 0 to p.days
      invariant FilesTo(w, p, d, files, filenames)
    {
      AddDay(w, p, d, files, filenames);
      if d == p.gap {
        continue;
      }
      var file := RenderDay(w, p, d);
      filenames := filenames + [Named(p, d)];
      files := files[Named(p, d) := file];
    }
    r := Series(files, filenames);
  }

  // ----- independence of days -----------------------------------------------------------------

  /** What a day's own settings say. */
  datatype Triggers = Triggers(
    extra: bool, late: Option<int>, changed: Option<nat>, corrected: Option<(nat, int)>, removed: set<nat>)

  function TriggersOn(p: Params, d: int): Triggers {
    Triggers(
      HasExtra(p, d),
      if d == p.lateDay then Some(p.lateOffset) else None,
      if p.changeDay.Some? && d >= p.changeDay.value then p.changeMember else None,
      if HasCorrection(p, d) then Some((p.correctionMember.value, p.correctionOffset)) else None,
      Removed(p, d))
  }

  /** The roster members removed on day d. */
  function Removed(p: Params, d: int): set<nat> {
    set m | 0 <= m < p.rows && IsRemoved(p, d, m)
  }

  predicate SameSeries(p: Params, q: Params) {
    p.dataset == q.dataset && p.start == q.start && p.rows == q.rows
  }

  lemma {:induction false} SameKept(p: Params, q: Params, d: int, n: nat)
    requires p.rows == q.rows && Removed(p, d) == Removed(q, d) && n <= p.rows
    ensures Kept(p, d, n) == Kept(q, d, n)
  {
    if n > 0 {
      SameKept(p, q, d, n - 1);
      assert IsRemoved(p, d, n - 1) <==> n - 1 in Removed(p, d);
      assert IsRemoved(q, d, n - 1) <==> n - 1 in Removed(q, d);
    }
  }

  lemma SameMemberRow(w: World, p: Params, q: Params, d: int, m: nat, k: nat)
    requires SameSeries(p, q) && TriggersOn(p, d) == TriggersOn(q, d)
    ensures MemberRow(w, p, d, m, k) == MemberRow(w, q, d, m, k)
  {
    assert TriggersOn(p, d).changed == TriggersOn(q, d).changed;
    assert IsChanged(p, d, m) <==> TriggersOn(p, d).changed == Some(m);
    assert IsChanged(q, d, m) <==> TriggersOn(q, d).changed == Some(m);
    assert HasExtra(p, d) <==> TriggersOn(p, d).extra;
    assert TriggersOn(p, d).late == TriggersOn(q, d).late;
  }

  lemma SameCorrectionRow(w: World, p: Params, q: Params, d: int, k: nat)
    requires SameSeries(p, q) && (HasExtra(p, d) <==> HasExtra(q, d)) && p.correctionMember.Some?
    requires p.correctionMember == q.correctionMember && p.correctionOffset == q.correctionOffset
    ensures CorrectionRow(w, p, d, k) == CorrectionRow(w, q, d, k)
  {
  }

  lemma SameCustomerRows(w: World, p: Params, q: Params, d: int)
    requires SameSeries(p, q) && TriggersOn(p, d) == TriggersOn(q, d)
    ensures CustomerRows(w, p, d) == CustomerRows(w, q, d)
  {
    var kept := Kept(p, d, p.rows);
    SameKept(p, q, d, p.rows);
    assert MemberRows(w, p, d, kept) == MemberRows(w, q, d, kept) by {
      forall k | 0 <= k < |kept| ensures MemberRow(w, p, d, kept[k], k) == MemberRow(w, q, d, kept[k], k) {
        SameMemberRow(w, p, q, d, kept[k], k);
      }
    }
    assert HasExtra(p, d) <==> TriggersOn(p, d).extra;
    assert TriggersOn(p, d).corrected == TriggersOn(q, d).corrected;
    if HasCorrection(p, d) {
      SameCorrectionRow(w, p, q, d, |kept|);
    }
  }

  lemma SameOrderRows(w: World, p: Params, q: Params, d: nat)
    requires SameSeries(p, q) && TriggersOn(p, d) == TriggersOn(q, d)
    ensures OrderRows(w, p, d) == OrderRows(w, q, d)
  {
    assert HasExtra(p, d) <==> TriggersOn(p, d).extra;
    assert TriggersOn(p, d).late == TriggersOn(q, d).late;
    forall r: nat | r < p.rows
      ensures OrderRow(w, p, d, r, r * DrawsPerRow(p, d)) == OrderRow(w, q, d, r, r * DrawsPerRow(q, d))
    {
    }
  }

  /** Two series that differ only in where their gap and anomalies fall have identical bytes
      on every day whose own triggers agree. */
  lemma SameTriggersSameBytes(w: World, p: Params, q: Params, d: nat)
    requires SameSeries(p, q) && TriggersOn(p, d) == TriggersOn(q, d)
    ensures DayFile(w, p, d) == DayFile(w, q, d)
  {
    assert HasExtra(p, d) <==> TriggersOn(p, d).extra;
    if p.dataset == Customers {
      SameCustomerRows(w, p, q, d);
    } else {
      SameOrderRows(w, p, q, d);
    }
    assert DayRows(w, p, d) == DayRows(w, q, d);
  }

  /** In particular, moving or filling the gap changes no other day's bytes. */
  lemma GapMovesNothing(w: World, p: Params, gap: int, d: nat)
    ensures DayFile(w, p.(gap := gap), d) == DayFile(w, p, d)
  {
    assert Removed(p.(gap := gap), d) == Removed(p, d);
    SameTriggersSameBytes(w, p.(gap := gap), p, d);
  }

  // ----- roster accounting ----------------------------------------------------------------------

  lemma {:induction false} KeptMembers(p: Params, d: int, n: nat)
    ensures forall m :: m in Kept(p, d, n) <==> 0 <= m < n && !IsRemoved(p, d, m)
    ensures |Kept(p, d, n)| + |RemovedTo(p, d, n)| == n
  {
    if n > 0 {
      KeptMembers(p, d, n - 1);
      OneMoreRemoved(p, d, n);
    }
  }

  /** The removed ones among the first n members. */
  function RemovedTo(p: Params, d: int, n: nat): set<nat> {
    set m | 0 <= m < n && IsRemoved(p, d, m)
  }

  lemma OneMoreRemoved(p: Params, d: int, n: nat)
    requires n > 0
    ensures |RemovedTo(p, d, n)| == |RemovedTo(p, d, n - 1)| + if IsRemoved(p, d, n - 1) then 1 else 0
  {
    assert RemovedTo(p, d, n) == RemovedTo(p, d, n - 1) + if IsRemoved(p, d, n - 1) then {n - 1} else {};
  }

  /** Every file of the series has the roster minus the removed members, plus one row when a
      late correction arrives. */
  lemma RosterAccounting(w: World, p: Params, d: int)
    ensures |CustomerRows(w, p, d)| == p.rows - |Removed(p, d)| + if HasCorrection(p, d) then 1 else 0
  {
    KeptMembers(p, d, p.rows);
    assert RemovedTo(p, d, p.rows) == Removed(p, d);
    assert Removed(p, d) == set m | 0 <= m < p.rows && IsRemoved(p, d, m);
  }

  /** The rows of one customer. */
  function Occurrences(rows: seq<Record>, id: string): nat {
    if rows == [] then 0
    else
      var last := rows[|rows| - 1];
      Occurrences(rows[..|rows| - 1], id) + if last != [] && last[0] == id then 1 else 0
  }

  lemma OneMoreRow(rows: seq<Record>, row: Record, id: string)
    requires row != []
    ensures Occurrences(rows + [row], id) == Occurrences(rows, id) + if row[0] == id then 1 else 0
  {
    assert (rows + [row])[..|rows|] == rows;
  }

  /** The text is that of one member's id and of no other. */
  ghost predicate IsKeyOf(id: string, m: nat) {
    forall k: nat :: Digits(IdOf(k)) == id <==> k == m
  }

  lemma KeysAreDistinct(m: nat)
    ensures IsKeyOf(Digits(IdOf(m)), m)
  {
    forall k: nat ensures Digits(IdOf(k)) == Digits(IdOf(m)) <==> k == m {
      DigitsAreInjective(IdOf(k), IdOf(m));
    }
  }

  lemma OccurrencesOfOne(w: World, p: Params, d: int, n: nat, m: nat, id: string)
    requires !IsRemoved(p, d, n) && IsKeyOf(id, m)
    ensures Occurrences(MemberRows(w, p, d, Kept(p, d, n + 1)), id) ==
            Occurrences(MemberRows(w, p, d, Kept(p, d, n)), id) + if n == m then 1 else 0
  {
    var before := Kept(p, d, n);
    var row := MemberRow(w, p, d, n, |before|);
    assert row[0] == Digits(IdOf(n));
    KeepOne(w, p, d, n);
    OneMoreRow(MemberRows(w, p, d, before), row, id);
  }

  lemma {:induction false} OccurrencesOfKept(w: World, p: Params, d: int, n: nat, m: nat, id: string)
    requires IsKeyOf(id, m)
    ensures Occurrences(MemberRows(w, p, d, Kept(p, d, n)), id) == if m < n && !IsRemoved(p, d, m) then 1 else 0
  {
    if n == 0 {
      assert MemberRows(w, p, d, []) == [];
    } else {
      OccurrencesOfKept(w, p, d, n - 1, m, id);
      if IsRemoved(p, d, n - 1) {
        assert Kept(p, d, n) == Kept(p, d, n - 1);
      } else {
        OccurrencesOfOne(w, p, d, n - 1, m, id);
      }
    }
  }

  /** How often a customer appears, whatever the anomalies: its roster row unless removed,
      and the correction. */
  lemma OccurrencesOfCustomer(w: World, p: Params, d: int, m: nat)
    ensures Occurrences(CustomerRows(w, p, d), Digits(IdOf(m))) ==
      (if m < p.rows && !IsRemoved(p, d, m) then 1 else 0)
      + if HasCorrection(p, d) && p.correctionMember == Some(m) then 1 else 0
  {
    KeysAreDistinct(m);
    OccurrencesOfKept(w, p, d, p.rows, m, Digits(IdOf(m)));
    var kept := Kept(p, d, p.rows);
    var roster := MemberRows(w, p, d, kept);
    if HasCorrection(p, d) {
      CorrectionOccurs(w, p, d, roster, |kept|, m);
    } else {
      assert roster + [] == roster;
    }
  }

  lemma CorrectionOccurs(w: World, p: Params, d: int, roster: seq<Record>, k: nat, m: nat)
    requires HasCorrection(p, d)
    ensures Occurrences(roster + [CorrectionRow(w, p, d, k)], Digits(IdOf(m))) ==
            Occurrences(roster, Digits(IdOf(m))) + if p.correctionMember == Some(m) then 1 else 0
  {
    var row := CorrectionRow(w, p, d, k);
    assert row[0] == Digits(IdOf(p.correctionMember.value));
    OneMoreRow(roster, row, Digits(IdOf(m)));
    DigitsAreInjective(IdOf(p.correctionMember.value), IdOf(m));
  }

  /** In a series the collision check lets through, a removed member appears in no row, the
      corrected one twice, and every other roster member exactly once. */
  lemma AcceptedOccurrences(w: World, p: Params, d: int, m: nat)
    requires Acceptable(p) && IndicesExist(p) && m < p.rows
    ensures Occurrences(CustomerRows(w, p, d), Digits(IdOf(m))) ==
      if IsRemoved(p, d, m) then 0
      else if HasCorrection(p, d) && p.correctionMember == Some(m) then 2
      else 1
  {
    OccurrencesOfCustomer(w, p, d, m);
    CheckedMeans(p, d, m);
  }

  /** Every row is a roster member's. */
  lemma RowsAreRosterRows(w: World, p: Params, d: int, i: nat) returns (m: nat)
    requires IndicesExist(p) && i < |CustomerRows(w, p, d)|
    ensures m < p.rows && CustomerRows(w, p, d)[i][0] == Digits(IdOf(m))
  {
    var kept := Kept(p, d, p.rows);
    KeptMembers(p, d, p.rows);
    if i < |kept| {
      assert kept[i] in kept;
      m := kept[i];
    } else {
      m := p.correctionMember.value;
    }
  }

  /** Without the check, a removed member comes back through its own correction. */
  lemma UncheckedRemovalIsUndone(w: World)
    ensures var p := Params(Customers, 0, 1, 3, -1, 9, 9, 0, None, None, Some(0), Some(1), 45, Some(0), Some(1), None, None);
      && CustomersOnly(p) && Paired(p) && IndicesExist(p) && !Acceptable(p)
      && IsRemoved(p, 0, 1) && Occurrences(CustomerRows(w, p, 0), Digits(IdOf(1))) == 1
  {
    var p := Params(Customers, 0, 1, 3, -1, 9, 9, 0, None, None, Some(0), Some(1), 45, Some(0), Some(1), None, None);
    OccurrencesOfCustomer(w, p, 0, 1);
    assert Targets(p) == [Target(0, 1, LateCorrection), Target(0, 1, MissingCustomer)];
    assert Collide(Targets(p)[0], Targets(p)[1]);
  }

  /** A member's roster rows agree in every column but the timestamp, on any two days on the
      same side of its attribute change; across the change, name and country differ. */
  lemma MemberIsStable(w: World, p: Params, m: nat, d: int, k: nat, e: int, l: nat)
    requires k < |Kept(p, d, p.rows)| && Kept(p, d, p.rows)[k] == m
    requires l < |Kept(p, e, p.rows)| && Kept(p, e, p.rows)[l] == m
    ensures var a, b := CustomerRows(w, p, d)[k], CustomerRows(w, p, e)[l];
      && a[0] == b[0] == Digits(IdOf(m)) && a[3] == b[3] && a[5] == b[5]
      && (IsChanged(p, d, m) == IsChanged(p, e, m) ==> a[1] == b[1] && a[2] == b[2])
      && (IsChanged(p, d, m) != IsChanged(p, e, m) ==> a[1] != b[1] && a[2] != b[2])
  {
    OverrideIsAChange(w, ChangeOf(IdOf(m)), Baseline(w, IdOf(m)));
  }

  /** The correction restates the row of an earlier day: same customer, birth date, signup
      country and, unless that row was itself late, time stamp; but another name and another
      country, unless the customer had already changed. */
  lemma CorrectionRestatesAnEarlierDay(w: World, p: Params, d: int, k: nat, j: nat)
    requires HasCorrection(p, d)
    ensures var m, e := p.correctionMember.value, d - p.correctionOffset;
      var correction, earlier := CorrectionRow(w, p, d, k), MemberRow(w, p, e, m, j);
      && correction[0] == earlier[0] && correction[3] == earlier[3] && correction[5] == earlier[5]
      && (!(e == p.lateDay && m == p.rows / 2) ==> correction[4] == earlier[4])
      && (!IsChanged(p, e, m) ==> correction[1] != earlier[1] && correction[2] != earlier[2])
  {
    var id := IdOf(p.correctionMember.value);
    OverrideIsAChange(w, CorrectionOf(id), Baseline(w, id));
  }

  /** Every row of every file has exactly the header's columns. */
  lemma RowsMatchTheHeader(w: World, p: Params, d: nat, i: nat)
    requires i < |DayRows(w, p, d)|
    ensures |DayRows(w, p, d)[i]| == |Header(p, d)|
  {
  }

  /** With dates that read differently, exactly the late row of the late day is backdated. */
  lemma OnlyTheLateRowIsBackdated(w: World, p: Params, d: int, k: nat)
    requires forall a, b :: w.dashed(a) == w.dashed(b) ==> a == b
    requires p.lateOffset != 0 && k < |Kept(p, d, p.rows)|
    ensures CustomerRows(w, p, d)[k][4] != Stamp(w, p.start + d) <==> d == p.lateDay && Kept(p, d, p.rows)[k] == p.rows / 2
  {
    var shown := CustomerRows(w, p, d)[k][4];
    var date := p.start + d - if d == p.lateDay && Kept(p, d, p.rows)[k] == p.rows / 2 then p.lateOffset else 0;
    assert shown == Stamp(w, date);
    if shown == Stamp(w, p.start + d) {
      assert w.dashed(date) == Stamp(w, date)[..|Stamp(w, date)| - 10];
      assert w.dashed(p.start + d) == Stamp(w, p.start + d)[..|Stamp(w, p.start + d)| - 10];
    }
  }

  lemma AmountBounds()
    ensures D.Low(AMOUNT) == 100 && D.High(AMOUNT) == 999_999 && D.Power(AMOUNT) == 100
  {
    assert Pow10(2) == 10 * Pow10(1) && Pow10(1) == 10 * Pow10(0);
    assert (-1.0 * 100.0).Floor == -100 && (9999.99 * 100.0).Floor == 999_999;
  }

  lemma AmountIsInBounds(k: nat)
    ensures var amount := D.Parse(AMOUNT, D.Render(AMOUNT, D.Units(AMOUNT, k)));
      amount.Some? && 100 <= amount.value <= 999_999
  {
    AmountBounds();
    D.FaithfulExactlyWhen(AMOUNT, D.Units(AMOUNT, k));
  }

  /** An order's own id, a customer it may refer to, its day unless it is the late row, and an
      amount that reads back within its bounds, whatever the draws. */
  ghost predicate SoundOrder(w: World, p: Params, d: nat, r: nat, row: Record) {
    && |row| >= 4
    && row[0] == Digits(OrderId(d, r))
    && (exists k: nat :: k < REFERENCED_MEMBERS && row[1] == OrderCustomer(k))
    && row[2] == w.dashed(p.start + d - if d == p.lateDay && r == p.rows / 2 then p.lateOffset else 0)
    && D.Parse(AMOUNT, row[3]).Some? && 100 <= D.Parse(AMOUNT, row[3]).value <= 999_999
  }

  lemma OrderRowIsSound(w: World, p: Params, d: nat, r: nat, at: nat)
    ensures SoundOrder(w, p, d, r, OrderRow(w, p, d, r, at))
  {
    var s := FileOf(Named(p, d));
    var row := OrderRow(w, p, d, r, at);
    AmountIsInBounds(w.draw(s, at + 1, D.Span(AMOUNT)));
    assert row[1] == OrderCustomer(Index(w, s, at, REFERENCED_MEMBERS));
    assert row[2] == w.dashed(p.start + d - if d == p.lateDay && r == p.rows / 2 then p.lateOffset else 0);
    assert row[3] == D.Render(AMOUNT, D.Units(AMOUNT, w.draw(s, at + 1, D.Span(AMOUNT))));
  }

  lemma EveryOrderIsSound(w: World, p: Params, d: nat, r: nat)
    requires r < p.rows
    ensures SoundOrder(w, p, d, r, OrderRows(w, p, d)[r])
  {
    var row := OrderRow(w, p, d, r, r * DrawsPerRow(p, d));
    assert SoundOrder(w, p, d, r, row) by {
      OrderRowIsSound(w, p, d, r, r * DrawsPerRow(p, d));
    }
    assert OrderRows(w, p, d)[r] == row;
  }

  // ----- identifiers -----------------------------------------------------------------------------

  /** Order ids of a span of days are distinct if and only if no day spills into the next
      one's range, and fit a 32-bit signed integer up to a bound on the last one. */
  lemma OrderIdsAreDistinctExactlyWhen(days: nat, rows: nat)
    ensures (forall d: nat, r: nat, e: nat, t: nat :: d < days && r < rows && e < days && t < rows ==>
              OrderId(d, r) == OrderId(e, t) ==> d == e && r == t)
            <==> rows <= ID_DAY_MULTIPLIER || days <= 1
  {
    if rows > ID_DAY_MULTIPLIER && days > 1 {
      assert OrderId(0, ID_DAY_MULTIPLIER) == OrderId(1, 0);
    }
  }

  /** So a day's rows are told apart by their ids over the whole series. */
  lemma OrderRowsAreDistinct(w: World, p: Params, d: nat, r: nat, e: nat, t: nat)
    requires r < p.rows <= ID_DAY_MULTIPLIER && t < p.rows
    ensures OrderRows(w, p, d)[r][0] == OrderRows(w, p, e)[t][0] <==> d == e && r == t
  {
    DigitsAreInjective(OrderId(d, r), OrderId(e, t));
  }

  const MAX_INT32: int := 2_147_483_647

  lemma OrderIdsFitExactlyWhen(days: nat, rows: nat)
    requires days > 0 && rows > 0
    ensures (forall d: nat, r: nat :: d < days && r < rows ==> OrderId(d, r) <= MAX_INT32) <==>
            (days - 1) * ID_DAY_MULTIPLIER + rows - 1 <= 37_483_647
  {
    assert OrderId(days - 1, rows - 1) == ORDER_ID_BASE + (days - 1) * ID_DAY_MULTIPLIER + rows - 1;
  }

  /** Roster ids stay below every order id up to 9.9 million members. */
  lemma RosterIdsAreNotOrderIdsExactlyWhen(roster: nat)
    ensures (forall m: nat, d: nat, r: nat :: m < roster ==> IdOf(m) != OrderId(d, r)) <==> roster <= 9_900_000
  {
    if roster > 9_900_000 {
      assert IdOf(9_900_000) == OrderId(0, 0);
    }
  }

  /** The k-th customer an order may refer to is a member of a roster of this size. */
  ghost predicate Resolves(rows: nat, k: nat) {
    exists m: nat :: m < rows && OrderCustomer(m) == OrderCustomer(k)
  }

  lemma ResolvesExactlyWhen(rows: nat, k: nat)
    ensures Resolves(rows, k) <==> k < rows
  {
    if k < rows {
      assert OrderCustomer(k) == OrderCustomer(k);
    }
    forall m: nat | m < rows && OrderCustomer(m) == OrderCustomer(k) ensures m == k {
      DigitsAreInjective(IdOf(m), IdOf(k));
    }
  }

  /** Every order of every day refers to a roster member, for every seed, if and only if the
      roster has at least the referenced members. */
  lemma OrdersResolveExactlyWhen(rows: nat)
    ensures (forall k: nat :: k < REFERENCED_MEMBERS ==> Resolves(rows, k)) <==> rows >= REFERENCED_MEMBERS
  {
    forall k: nat ensures Resolves(rows, k) <==> k < rows {
      ResolvesExactlyWhen(rows, k);
    }
    assert !Resolves(rows, rows);
  }
}
