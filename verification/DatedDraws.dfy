/**
  The draws of a dated series are independent: whatever values one wishes for, some seed's
  streams give them, because no two values share a draw.
 */
module DatedDraws {
  import opened CsvText
  import opened DatedSeries
  import opened DecimalDigits
  import D = DecimalRendering
  import opened Options

  /** What one may wish for in the rows of an orders file. */
  datatype Wish = Wish(customer: nat, units: int, extra: nat)

  predicate IsPossible(wish: Wish) {
    && wish.customer < 30
    && D.Low(AMOUNT) <= wish.units <= D.High(AMOUNT)
    && wish.extra < |ExtraValues(Orders)|
  }

  /** The row of this day and number that holds the wish. */
  function WishedRow(dashed: int -> string, p: Params, d: nat, row: nat, wish: Wish): Record
    requires IsPossible(wish)
  {
    [Digits(2_110_000_000 + 10_000 * d + row),
     Digits(2_100_100_000 + wish.customer),
     dashed(p.start + d - if d == p.lateDay && row == p.rows / 2 then p.lateOffset else 0),
     D.Render(AMOUNT, wish.units)]
    + if d >= p.schemaChange then [ExtraValues(Orders)[wish.extra]] else []
  }

  /** The draw that grants wish j of row r, rows taking n draws each. */
  function Granted(wishes: nat -> Wish, n: nat, at: nat): nat
    requires n > 0 && forall r :: IsPossible(wishes(r))
  {
    var wish := wishes(at / n);
    assert IsPossible(wish);
    if at % n == 0 then wish.customer else if at % n == 1 then wish.units - D.Low(AMOUNT) else wish.extra
  }

  lemma GrantedAt(wishes: nat -> Wish, n: nat, r: nat, j: nat)
    requires 2 <= n <= 3 && j < n && forall r :: IsPossible(wishes(r))
    ensures Granted(wishes, n, r * n + j) ==
      if j == 0 then wishes(r).customer else if j == 1 then wishes(r).units - D.Low(AMOUNT) else wishes(r).extra
  {
    if n == 2 {
      assert (r * 2 + j) / 2 == r && (r * 2 + j) % 2 == j;
    } else {
      assert (r * 3 + j) / 3 == r && (r * 3 + j) % 3 == j;
    }
  }

  /** Every combination of customers, amounts and codes is the orders file of some seed. */
  lemma EveryOrdersFileIsPossible(dashed: int -> string, p: Params, d: nat, wishes: nat -> Wish) returns (w: World)
    requires forall r :: IsPossible(wishes(r))
    ensures w.dashed == dashed && |OrderRows(w, p, d)| == p.rows
    ensures forall r :: 0 <= r < p.rows ==> OrderRows(w, p, d)[r] == WishedRow(dashed, p, d, r, wishes(r))
  {
    var n := if d >= p.schemaChange then 3 else 2;
    var draw: (StreamName, nat, int) -> nat := (s, at, count) => Granted(wishes, n, at);
    w := World(draw, dashed);
    forall r: nat | r < p.rows ensures OrderRows(w, p, d)[r] == WishedRow(dashed, p, d, r, wishes(r)) {
      GrantedRow(w, p, d, r, wishes, n);
    }
  }

  lemma DrawnUnits(c: D.Column, units: int)
    requires D.Low(c) <= units <= D.High(c)
    ensures D.Units(c, units - D.Low(c)) == units
  {
  }

  lemma DrawnCustomer(w: World, s: StreamName, at: nat, customer: nat)
    requires customer < 30 && w.draw(s, at, REFERENCED_MEMBERS) == customer
    ensures OrderCustomer(Index(w, s, at, REFERENCED_MEMBERS)) == Digits(2_100_100_000 + customer)
  {
  }

  lemma DrawnExtra(w: World, s: StreamName, at: nat, extra: nat)
    requires extra < |ExtraValues(Orders)| && w.draw(s, at, |ExtraValues(Orders)|) == extra
    ensures Pick(w, s, at, ExtraValues(Orders)) == ExtraValues(Orders)[extra]
  {
  }

  /** The row from its three drawn parts. */
  lemma RowOfParts(w: World, p: Params, d: nat, r: nat, at: nat, wish: Wish, s: StreamName, units: int)
    requires IsPossible(wish) && s == FileOf(Named(p, d))
    requires OrderCustomer(Index(w, s, at, REFERENCED_MEMBERS)) == Digits(2_100_100_000 + wish.customer)
    requires units == D.Units(AMOUNT, w.draw(s, at + 1, D.Span(AMOUNT))) == wish.units
    requires HasExtra(p, d) ==> Pick(w, s, at + 2, ExtraValues(Orders)) == ExtraValues(Orders)[wish.extra]
    ensures OrderRow(w, p, d, r, at) == WishedRow(w.dashed, p, d, r, wish)
  {
    assert OrderId(d, r) == 2_110_000_000 + 10_000 * d + r;
  }

  lemma RowOfDraws(w: World, p: Params, d: nat, r: nat, at: nat, wish: Wish, s: StreamName)
    requires IsPossible(wish) && s == FileOf(Named(p, d))
    requires w.draw(s, at, REFERENCED_MEMBERS) == wish.customer
    requires w.draw(s, at + 1, D.Span(AMOUNT)) == wish.units - D.Low(AMOUNT)
    requires HasExtra(p, d) ==> w.draw(s, at + 2, |ExtraValues(Orders)|) == wish.extra
    ensures OrderRow(w, p, d, r, at) == WishedRow(w.dashed, p, d, r, wish)
  {
    DrawnCustomer(w, s, at, wish.customer);
    DrawnUnits(AMOUNT, wish.units);
    if HasExtra(p, d) {
      DrawnExtra(w, s, at + 2, wish.extra);
    }
    RowOfParts(w, p, d, r, at, wish, s, wish.units);
  }

  lemma GrantedRow(w: World, p: Params, d: nat, r: nat, wishes: nat -> Wish, n: nat)
    requires (forall r :: IsPossible(wishes(r))) && n == DrawsPerRow(p, d)
    requires forall s, at, count :: w.draw(s, at, count) == Granted(wishes, n, at)
    ensures OrderRow(w, p, d, r, r * n) == WishedRow(w.dashed, p, d, r, wishes(r))
  {
    assert IsPossible(wishes(r));
    GrantedAt(wishes, n, r, 0);
    GrantedAt(wishes, n, r, 1);
    if HasExtra(p, d) {
      GrantedAt(wishes, n, r, 2);
    }
    RowOfDraws(w, p, d, r, r * n, wishes(r), FileOf(Named(p, d)));
  }

  // ----- the roster -------------------------------------------------------------------

  /** Indices into the pools for a customer's baseline, its change and its correction. */
  datatype Choice = Choice(
    name: nat, country: nat, birthDate: nat, signupCountry: nat,
    changedName: nat, changedCountry: nat, correctedName: nat, correctedCountry: nat)

  predicate IsChoice(c: Choice) {
    && c.name < 20 && c.country < 18 && c.birthDate < 8 && c.signupCountry < 18
    && c.changedName < 20 && c.changedCountry < 18 && c.correctedName < 20 && c.correctedCountry < 18
    && NameAt(c.changedName) != NameAt(c.name) && CountryAt(c.changedCountry) != CountryAt(c.country)
    && NameAt(c.correctedName) != NameAt(c.name) && CountryAt(c.correctedCountry) != CountryAt(c.country)
  }

  function Chosen(choices: nat -> Choice, s: StreamName, at: nat): nat {
    match s
    case BaselineOf(id) =>
      var c := choices(id);
      if at == 0 then c.name else if at == 1 then c.country else if at == 2 then c.birthDate else c.signupCountry
    case ChangeOf(id) => if at == 0 then choices(id).changedName else choices(id).changedCountry
    case CorrectionOf(id) => if at == 0 then choices(id).correctedName else choices(id).correctedCountry
    case FileOf(_) => at
  }

  /** Every combination of profiles, changes and corrections is the roster of some seed, as long
      as these differ from the baseline. */
  lemma EveryRosterIsPossible(dashed: int -> string, choices: nat -> Choice) returns (w: World)
    requires forall id :: IsChoice(choices(id))
    ensures forall id ::
      var c := choices(id); var base := Baseline(w, id);
      && base == Profile(NameAt(c.name), CountryAt(c.country), BirthDateAt(c.birthDate), CountryAt(c.signupCountry))
      && Override(w, ChangeOf(id), base) == base.(name := NameAt(c.changedName), country := CountryAt(c.changedCountry))
      && Override(w, CorrectionOf(id), base) == base.(name := NameAt(c.correctedName), country := CountryAt(c.correctedCountry))
  {
    var draw: (StreamName, nat, int) -> nat := (s, at, count) => Chosen(choices, s, at);
    w := World(draw, dashed);
    forall id: nat ensures
      var c := choices(id); var base := Baseline(w, id);
      && base == Profile(NameAt(c.name), CountryAt(c.country), BirthDateAt(c.birthDate), CountryAt(c.signupCountry))
      && Override(w, ChangeOf(id), base) == base.(name := NameAt(c.changedName), country := CountryAt(c.changedCountry))
      && Override(w, CorrectionOf(id), base) == base.(name := NameAt(c.correctedName), country := CountryAt(c.correctedCountry))
    {
      assert IsChoice(choices(id));
    }
  }
}
