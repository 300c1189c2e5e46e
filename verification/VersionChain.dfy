/**
  Recomputing one customer's version chain from its whole bronze history.
 */
module VersionChain {
  import opened Options

  datatype Bronze = Bronze(
    customer: int,
    name: Option<string>,
    country: Option<string>,
    birthDate: Option<string>,
    eventTs: int,
    signupCountry: Option<string>,
    rowNumber: int,
    fileId: int)

  datatype Version = Version(
    customer: int,
    name: Option<string>,
    country: Option<string>,
    birthDate: Option<string>,
    signupCountry: Option<string>,
    validFrom: int,
    validTo: int,
    isCurrent: bool)

  /** The order (event_ts, file_id, source_row_number). */
  predicate Before(a: Bronze, b: Bronze) {
    || a.eventTs < b.eventTs
    || (a.eventTs == b.eventTs && a.fileId < b.fileId)
    || (a.eventTs == b.eventTs && a.fileId == b.fileId && a.rowNumber < b.rowNumber)
  }

  // ----- sorting -------------------------------------------------------------------

  /** Stable: after every row that does not come later. */
  function Insert(rows: seq<Bronze>, x: Bronze): (r: seq<Bronze>)
    ensures |r| == |rows| + 1
  {
    if rows != [] && Before(x, rows[|rows| - 1])
    then Insert(rows[..|rows| - 1], x) + [rows[|rows| - 1]]
    else rows + [x]
  }

  function Sorted(history: seq<Bronze>): (r: seq<Bronze>)
    ensures |r| == |history|
  {
    if history == [] then [] else Insert(Sorted(history[..|history| - 1]), history[|history| - 1])
  }

  predicate Ascends(rows: seq<Bronze>) {
    forall i, j :: 0 <= i < j < |rows| ==> !Before(rows[j], rows[i])
  }

  /** Equal in the whole key, as a row and its replay are. */
  predicate Tied(a: Bronze, b: Bronze) {
    !Before(a, b) && !Before(b, a)
  }

  /** Tied rows agree in every column the chain takes from a row. */
  ghost predicate TiedRowsAgree(rows: set<Bronze>) {
    forall a, b :: a in rows && b in rows && Tied(a, b) ==> a == b
  }

  lemma {:induction false} InsertAscends(rows: seq<Bronze>, x: Bronze)
    requires Ascends(rows)
    ensures Ascends(Insert(rows, x))
  {
    if rows != [] && Before(x, rows[|rows| - 1]) {
      var init, last := rows[..|rows| - 1], rows[|rows| - 1];
      InsertAscends(init, x);
      forall i | 0 <= i < |Insert(init, x)| ensures !Before(last, Insert(init, x)[i]) {
        InsertedFrom(init, x, i);
      }
    }
  }

  lemma {:induction false} InsertedFrom(rows: seq<Bronze>, x: Bronze, i: nat)
    requires i <= |rows|
    ensures Insert(rows, x)[i] in rows || Insert(rows, x)[i] == x
  {
    if rows != [] && Before(x, rows[|rows| - 1]) && i < |rows| {
      InsertedFrom(rows[..|rows| - 1], x, i);
    }
  }

  lemma {:induction false} InsertIsAPermutation(rows: seq<Bronze>, x: Bronze)
    ensures multiset(Insert(rows, x)) == multiset(rows) + multiset{x}
  {
    if rows != [] && Before(x, rows[|rows| - 1]) {
      InsertIsAPermutation(rows[..|rows| - 1], x);
      SnocAsMultiset(rows[..|rows| - 1], rows[|rows| - 1], rows);
    }
  }

  lemma SnocAsMultiset(init: seq<Bronze>, last: Bronze, rows: seq<Bronze>)
    requires rows == init + [last]
    ensures multiset(rows) == multiset(init) + multiset{last}
  {
  }

  lemma {:induction false} SortedAscends(history: seq<Bronze>)
    ensures Ascends(Sorted(history))
  {
    if history != [] {
      SortedAscends(history[..|history| - 1]);
      InsertAscends(Sorted(history[..|history| - 1]), history[|history| - 1]);
    }
  }

  lemma SplitLast(rows: seq<Bronze>)
    requires rows != []
    ensures rows == rows[..|rows| - 1] + [rows[|rows| - 1]]
  {
  }

  lemma {:induction false} SortedIsAPermutation(history: seq<Bronze>)
    ensures multiset(Sorted(history)) == multiset(history)
  {
    if history != [] {
      SplitLast(history);
      SortedIsAPermutation(history[..|history| - 1]);
      InsertSorted(
        Sorted(history[..|history| - 1]), history[|history| - 1], history[..|history| - 1], history);
    }
  }

  lemma InsertSorted(sorted: seq<Bronze>, last: Bronze, init: seq<Bronze>, rows: seq<Bronze>)
    requires multiset(sorted) == multiset(init) && rows == init + [last]
    ensures multiset(Insert(sorted, last)) == multiset(rows)
  {
    InsertIsAPermutation(sorted, last);
    SnocAsMultiset(init, last, rows);
  }

  lemma SortedHolds(history: seq<Bronze>)
    ensures forall r :: r in Sorted(history) <==> r in history
  {
    SortedIsAPermutation(history);
    assert forall r :: r in Sorted(history) <==> r in multiset(Sorted(history));
  }

  predicate StrictlyAscends(rows: seq<Bronze>) {
    forall i, j :: 0 <= i < j < |rows| ==> Before(rows[i], rows[j])
  }

  lemma {:induction false} StrictOrderIsUnique(a: seq<Bronze>, b: seq<Bronze>)
    requires StrictlyAscends(a) && StrictlyAscends(b) && forall r :: r in a <==> r in b
    ensures a == b
    decreases |a|
  {
    assert b != [] ==> b[0] in a;
    if a != [] {
      SameLast(a, b);
      WithoutLast(a);
      WithoutLast(b);
      var a', b' := a[..|a| - 1], b[..|b| - 1];
      forall r ensures r in a' <==> r in b' {
        assert r in a <==> r in b;
      }
      StrictOrderIsUnique(a', b');
    }
  }

  lemma WithoutLast(a: seq<Bronze>)
    requires StrictlyAscends(a) && a != []
    ensures StrictlyAscends(a[..|a| - 1]) && a == a[..|a| - 1] + [a[|a| - 1]]
    ensures forall r :: r in a[..|a| - 1] <==> r in a && r != a[|a| - 1]
  {
    var last := a[|a| - 1];
    forall i | 0 <= i < |a| - 1 ensures a[i] != last && a[i] in a[..|a| - 1] {
      assert Before(a[i], last) && a[..|a| - 1][i] == a[i];
    }
  }

  lemma SameLast(a: seq<Bronze>, b: seq<Bronze>)
    requires StrictlyAscends(a) && StrictlyAscends(b) && a != [] && forall r :: r in a <==> r in b
    ensures b != [] && a[|a| - 1] == b[|b| - 1]
  {
    var x := a[|a| - 1];
    assert x in b;
    var i :| 0 <= i < |b| && b[i] == x;
    var y := b[|b| - 1];
    assert y in a;
    var j :| 0 <= j < |a| && a[j] == y;
    assert i < |b| - 1 ==> Before(x, y);
    assert j < |a| - 1 ==> Before(y, x);
  }

  // ----- grouping ---------------------------------------------------------------------

  function Text(value: Option<string>): string {
    if value.None? then "" else value.value
  }

  /** What `tracked_attribute_hash` digests; the digest itself is taken to be injective. */
  function Tracked(r: Bronze): string {
    Text(r.name) + "|" + Text(r.country)
  }

  predicate Starts(ordered: seq<Bronze>, i: nat)
    requires i < |ordered|
  {
    i == 0 || Tracked(ordered[i]) != Tracked(ordered[i - 1])
  }

  /** The group starts among the first n rows. */
  function StartsTo(ordered: seq<Bronze>, n: nat): seq<nat>
    requires n <= |ordered|
  {
    if n == 0 then []
    else StartsTo(ordered, n - 1) + if Starts(ordered, n - 1) then [n - 1] else []
  }

  /** `max` by key keeps the first of equals, as does `min`. */
  function Latest(rows: seq<Bronze>): Bronze
    requires rows != []
  {
    if |rows| == 1 then rows[0]
    else
      var m := Latest(rows[..|rows| - 1]);
      if Before(m, rows[|rows| - 1]) then rows[|rows| - 1] else m
  }

  function Earliest(rows: seq<Bronze>): Bronze
    requires rows != []
  {
    if |rows| == 1 then rows[0]
    else
      var m := Earliest(rows[..|rows| - 1]);
      if Before(rows[|rows| - 1], m) then rows[|rows| - 1] else m
  }

  function Made(first: Bronze, birthDate: Option<string>, signupCountry: Option<string>, to: int, current: bool): Version {
    Version(first.customer, first.name, first.country, birthDate, signupCountry, first.eventTs, to, current)
  }

  function VersionOf(ordered: seq<Bronze>, starts: seq<nat>, g: nat, sentinel: int): Version
    requires ordered != [] && g < |starts| && forall k :: 0 <= k < |starts| ==> starts[k] < |ordered|
  {
    Made(
      ordered[starts[g]], Latest(ordered).birthDate, Earliest(ordered).signupCountry,
      if g == |starts| - 1 then sentinel else ordered[starts[g + 1]].eventTs,
      g == |starts| - 1)
  }

  lemma {:induction false} StartsAreInRange(ordered: seq<Bronze>, n: nat)
    requires n <= |ordered|
    ensures forall k :: 0 <= k < |StartsTo(ordered, n)| ==> StartsTo(ordered, n)[k] < n
    ensures forall k :: 0 <= k < |StartsTo(ordered, n)| ==> Starts(ordered, StartsTo(ordered, n)[k])
  {
    if n > 0 {
      StartsAreInRange(ordered, n - 1);
    }
  }

  lemma {:induction false} EveryStartIsListed(ordered: seq<Bronze>, n: nat)
    requires n <= |ordered|
    ensures forall i :: 0 <= i < n && Starts(ordered, i) ==> i in StartsTo(ordered, n)
    ensures n > 0 ==> StartsTo(ordered, n) != [] && StartsTo(ordered, n)[0] == 0
  {
    if n > 0 {
      EveryStartIsListed(ordered, n - 1);
    }
  }

  lemma {:induction false} StartsGoUp(ordered: seq<Bronze>, n: nat)
    requires n <= |ordered|
    ensures forall k :: 0 <= k < |StartsTo(ordered, n)| - 1 ==> StartsTo(ordered, n)[k] < StartsTo(ordered, n)[k + 1]
  {
    if n > 0 {
      StartsGoUp(ordered, n - 1);
      StartsAreInRange(ordered, n - 1);
    }
  }

  lemma StartsAreStarts(ordered: seq<Bronze>, n: nat)
    requires n <= |ordered|
    ensures var starts := StartsTo(ordered, n);
      && (forall k :: 0 <= k < |starts| ==> starts[k] < n && Starts(ordered, starts[k]))
      && (forall k :: 0 <= k < |starts| - 1 ==> starts[k] < starts[k + 1])
      && (n > 0 ==> starts != [] && starts[0] == 0)
    ensures forall i :: 0 <= i < n && Starts(ordered, i) ==> i in StartsTo(ordered, n)
  {
    StartsAreInRange(ordered, n);
    EveryStartIsListed(ordered, n);
    StartsGoUp(ordered, n);
  }

  function Chain(ordered: seq<Bronze>, sentinel: int): (versions: seq<Version>)
    requires ordered != []
    ensures versions != []
  {
    StartsAreStarts(ordered, |ordered|);
    var starts := StartsTo(ordered, |ordered|);
    seq(|starts|, g requires 0 <= g < |starts| => VersionOf(ordered, starts, g, sentinel))
  }

  method GroupStarts(ordered: seq<Bronze>) returns (starts: seq<nat>)
    requires ordered != []
    ensures starts == StartsTo(ordered, |ordered|)
  {
    starts := [0];
    assert StartsTo(ordered, 1) == [0] by {
      assert StartsTo(ordered, 0) == [];
    }
    for i := 1 to |ordered|
      invariant starts == StartsTo(ordered, i)
    {
      if Tracked(ordered[i]) != Tracked(ordered[i - 1]) {
        starts := starts + [i];
      }
      assert Starts(ordered, i) <==> Tracked(ordered[i]) != Tracked(ordered[i - 1]);
    }
  }

  datatype Outcome = Versions(versions: seq<Version>) | NoHistory

  /** `recompute_version_chain`; an empty history is an error of `max`. */
  method RecomputeVersionChain(history: seq<Bronze>, sentinel: int) returns (r: Outcome)
    ensures r.NoHistory? <==> history == []
    ensures history != [] ==> r == Versions(Chain(Sorted(history), sentinel))
  {
    if history == [] {
      return NoHistory;
    }
    var ordered := Sorted(history);
    var starts := GroupStarts(ordered);
    StartsAreStarts(ordered, |ordered|);
    var versions := [];
    for g := 0 to |starts|
      invariant |versions| == g && forall k :: 0 <= k < g ==> versions[k] == VersionOf(ordered, starts, k, sentinel)
    {
      var version := VersionOf(ordered, starts, g, sentinel);
      versions := versions + [version];
    }
    assert versions == Chain(ordered, sentinel);
    r := Versions(versions);
  }

  // ----- staging a row again ----------------------------------------------------------------

  /** The rows without immediate repetitions. */
  function Condensed(rows: seq<Bronze>): (r: seq<Bronze>)
    ensures rows != [] ==> r != [] && r[|r| - 1] == rows[|rows| - 1]
  {
    if rows == [] then []
    else
      var init := rows[..|rows| - 1];
      if init != [] && init[|init| - 1] == rows[|rows| - 1] then Condensed(init) else Condensed(init) + [rows[|rows| - 1]]
  }

  lemma {:induction false} CondensedRows(rows: seq<Bronze>)
    ensures forall r :: r in Condensed(rows) <==> r in rows
  {
    if rows != [] {
      SplitLast(rows);
      CondensedRows(rows[..|rows| - 1]);
    }
  }

  lemma {:induction false} CondensedIsStrict(ordered: seq<Bronze>, rows: set<Bronze>)
    requires Ascends(ordered) && TiedRowsAgree(rows) && forall r :: r in ordered ==> r in rows
    ensures StrictlyAscends(Condensed(ordered))
  {
    if ordered != [] {
      var init, last := ordered[..|ordered| - 1], ordered[|ordered| - 1];
      CondensedIsStrict(init, rows);
      if init != [] && init[|init| - 1] != last {
        forall r | r in Condensed(init) ensures Before(r, last) {
          CondensedRows(init);
          var i :| 0 <= i < |init| && init[i] == r;
          RowsBeforeANewLast(ordered, rows, i);
        }
      }
    }
  }

  lemma RowsBeforeANewLast(ordered: seq<Bronze>, rows: set<Bronze>, i: nat)
    requires Ascends(ordered) && TiedRowsAgree(rows) && forall r :: r in ordered ==> r in rows
    requires i < |ordered| - 1 && ordered[|ordered| - 2] != ordered[|ordered| - 1]
    ensures Before(ordered[i], ordered[|ordered| - 1])
  {
    var previous, last := ordered[|ordered| - 2], ordered[|ordered| - 1];
    assert previous in rows && last in rows && ordered[i] in rows;
    assert !Before(last, previous) && !Before(last, ordered[i]);
    assert i < |ordered| - 2 ==> !Before(previous, ordered[i]);
    assert !Tied(previous, last);
  }

  /** The chain of one more row, from the chain so far and the row before it. */
  function Extended(
    chain: seq<Version>, previous: Bronze, latest: Bronze, earliest: Bronze, r: Bronze, sentinel: int): seq<Version>
    requires chain != []
  {
    var n := |chain|;
    var updated := seq(n, g requires 0 <= g < n =>
      chain[g].(birthDate := latest.birthDate, signupCountry := earliest.signupCountry));
    if Tracked(r) == Tracked(previous) then updated
    else
      updated[n - 1 := updated[n - 1].(validTo := r.eventTs, isCurrent := false)]
      + [Made(r, latest.birthDate, earliest.signupCountry, sentinel, true)]
  }

  lemma {:induction false} StartsOfPrefix(rows: seq<Bronze>, r: Bronze, n: nat)
    requires n <= |rows|
    ensures StartsTo(rows + [r], n) == StartsTo(rows, n)
  {
    if n > 0 {
      StartsOfPrefix(rows, r, n - 1);
      assert (rows + [r])[n - 1] == rows[n - 1] && (n > 1 ==> (rows + [r])[n - 2] == rows[n - 2]);
    }
  }

  lemma StartsOfSnoc(rows: seq<Bronze>, r: Bronze)
    requires rows != []
    ensures StartsTo(rows + [r], |rows| + 1) ==
      StartsTo(rows, |rows|) + if Tracked(r) != Tracked(rows[|rows| - 1]) then [|rows|] else []
  {
    StartsOfPrefix(rows, r, |rows|);
    assert (rows + [r])[|rows|] == r && (rows + [r])[|rows| - 1] == rows[|rows| - 1];
  }

  /** `Extended` for the last row of a sequence. */
  function SnocChain(rows: seq<Bronze>, r: Bronze, sentinel: int): seq<Version>
    requires rows != []
  {
    Extended(Chain(rows, sentinel), rows[|rows| - 1], Latest(rows + [r]), Earliest(rows + [r]), r, sentinel)
  }

  lemma ChainOfSnoc(rows: seq<Bronze>, r: Bronze, sentinel: int)
    requires rows != []
    ensures Chain(rows + [r], sentinel) == SnocChain(rows, r, sentinel)
  {
    LengthOfSnoc(rows, r, sentinel);
    forall g | 0 <= g < |Chain(rows + [r], sentinel)|
      ensures Chain(rows + [r], sentinel)[g] == SnocChain(rows, r, sentinel)[g]
    {
      VersionOfSnoc(rows, r, sentinel, g);
    }
    SameElements(Chain(rows + [r], sentinel), SnocChain(rows, r, sentinel));
  }

  lemma SameElements<T>(a: seq<T>, b: seq<T>)
    requires |a| == |b| && forall i :: 0 <= i < |a| ==> a[i] == b[i]
    ensures a == b
  {
  }

  lemma LengthOfSnoc(rows: seq<Bronze>, r: Bronze, sentinel: int)
    requires rows != []
    ensures |Chain(rows + [r], sentinel)| == |SnocChain(rows, r, sentinel)|
  {
    StartsOfSnoc(rows, r);
  }

  lemma VersionOfSnoc(rows: seq<Bronze>, r: Bronze, sentinel: int, g: nat)
    requires rows != [] && g < |Chain(rows + [r], sentinel)|
    ensures g < |SnocChain(rows, r, sentinel)|
    ensures Chain(rows + [r], sentinel)[g] == SnocChain(rows, r, sentinel)[g]
  {
    StartsOfSnoc(rows, r);
    VersionMade(rows + [r], sentinel, g);
    if g < |Chain(rows, sentinel)| {
      VersionMade(rows, sentinel, g);
    }
  }

  lemma VersionMade(ordered: seq<Bronze>, sentinel: int, g: nat)
    requires ordered != [] && g < |Chain(ordered, sentinel)|
    ensures var chain, starts := Chain(ordered, sentinel), StartsTo(ordered, |ordered|);
      && |starts| == |chain| && starts[g] < |ordered| && (g + 1 < |starts| ==> starts[g + 1] < |ordered|)
      && chain[g] == Made(
           ordered[starts[g]], Latest(ordered).birthDate, Earliest(ordered).signupCountry,
           if g == |chain| - 1 then sentinel else ordered[starts[g + 1]].eventTs,
           g == |chain| - 1)
  {
    StartsAreStarts(ordered, |ordered|);
  }

  lemma {:induction false} CondensedOuterRows(rows: seq<Bronze>)
    requires rows != []
    ensures Latest(Condensed(rows)) == Latest(rows) && Earliest(Condensed(rows)) == Earliest(rows)
    ensures |rows| > 1 && rows[|rows| - 2] == rows[|rows| - 1] ==>
      Latest(rows) == Latest(rows[..|rows| - 1]) && Earliest(rows) == Earliest(rows[..|rows| - 1])
  {
    if |rows| > 1 {
      var init := rows[..|rows| - 1];
      CondensedOuterRows(init);
      LastIsNotOutside(init);
      var condensed := Condensed(init) + [rows[|rows| - 1]];
      assert condensed[..|condensed| - 1] == Condensed(init);
    }
  }

  lemma LastIsNotOutside(rows: seq<Bronze>)
    requires rows != []
    ensures !Before(Latest(rows), rows[|rows| - 1]) && !Before(rows[|rows| - 1], Earliest(rows))
  {
  }

  lemma RepeatedLast(rows: seq<Bronze>, sentinel: int)
    requires rows != []
    ensures Chain(rows + [rows[|rows| - 1]], sentinel) == Chain(rows, sentinel)
  {
    var last := rows[|rows| - 1];
    var after := rows + [last];
    assert after[..|after| - 1] == rows;
    CondensedOuterRows(after);
    ChainOfSnoc(rows, last, sentinel);
    SameOuterRows(rows, sentinel);
    SameElements(SnocChain(rows, last, sentinel), Chain(rows, sentinel));
  }

  /** A repeated row changes nothing in the chain. */
  lemma {:induction false} CondensedChain(rows: seq<Bronze>, sentinel: int)
    requires rows != []
    ensures Chain(rows, sentinel) == Chain(Condensed(rows), sentinel)
  {
    if |rows| > 1 {
      var init, last := rows[..|rows| - 1], rows[|rows| - 1];
      SplitLast(rows);
      CondensedChain(init, sentinel);
      if init[|init| - 1] == last {
        RepeatedLast(init, sentinel);
      } else {
        CondensedOuterRows(rows);
        ChainOfSnoc(init, last, sentinel);
        ChainOfSnoc(Condensed(init), last, sentinel);
        assert rows == init + [last] && Condensed(rows) == Condensed(init) + [last];
        assert SnocChain(init, last, sentinel) == SnocChain(Condensed(init), last, sentinel);
      }
    } else {
      assert Condensed(rows) == rows;
    }
  }

  lemma SameOuterRows(rows: seq<Bronze>, sentinel: int)
    requires rows != []
    ensures forall g :: 0 <= g < |Chain(rows, sentinel)| ==>
      && Chain(rows, sentinel)[g].birthDate == Latest(rows).birthDate
      && Chain(rows, sentinel)[g].signupCountry == Earliest(rows).signupCountry
  {
  }

  // ----- results ------------------------------------------------------------------------

  predicate SameRows(one: seq<Bronze>, other: seq<Bronze>) {
    forall r :: r in one + other ==> r in one && r in other
  }

  /** Two histories give the same chain. */
  ghost predicate SameChain(one: seq<Bronze>, other: seq<Bronze>, sentinel: int)
    requires one != [] && other != []
  {
    Chain(Sorted(one), sentinel) == Chain(Sorted(other), sentinel)
  }

  /** When tied rows agree, the chain depends on the rows alone: not on the order they are read
      in, nor on how many runs have staged the same row. */
  lemma ReplaysAndReadOrderDoNotMatter(one: seq<Bronze>, other: seq<Bronze>, rows: set<Bronze>, sentinel: int)
    requires one != [] && other != [] && SameRows(one, other)
    requires TiedRowsAgree(rows) && forall r :: r in one ==> r in rows
    ensures SameChain(one, other, sentinel)
  {
    SortedCondensed(one, rows, sentinel);
    SortedCondensed(other, rows, sentinel);
    forall r ensures r in Condensed(Sorted(one)) <==> r in Condensed(Sorted(other)) {
      assert r in one ==> r in one + other;
      assert r in other ==> r in one + other;
    }
    StrictOrderIsUnique(Condensed(Sorted(one)), Condensed(Sorted(other)));
  }

  lemma SortedCondensed(history: seq<Bronze>, rows: set<Bronze>, sentinel: int)
    requires history != [] && TiedRowsAgree(rows) && forall r :: r in history ==> r in rows
    ensures var condensed := Condensed(Sorted(history));
      && StrictlyAscends(condensed) && (forall r :: r in condensed <==> r in history)
      && condensed != [] && Chain(Sorted(history), sentinel) == Chain(condensed, sentinel)
  {
    SortedAscends(history);
    SortedHolds(history);
    CondensedRows(Sorted(history));
    CondensedIsStrict(Sorted(history), rows);
    CondensedChain(Sorted(history), sentinel);
  }

  /** Every two histories of the same rows of this table have one chain. */
  ghost predicate RowsDecide(rows: set<Bronze>, sentinel: int) {
    forall one, other | one != [] && other != [] && SameRows(one, other) && (forall r :: r in one ==> r in rows) ::
      SameChain(one, other, sentinel)
  }

  /** The rows of a table decide the chain, however often and in whatever order they are read,
      if and only if its tied rows agree. */
  lemma RowsDecideExactlyWhen(rows: set<Bronze>, sentinel: int)
    ensures RowsDecide(rows, sentinel) <==> TiedRowsAgree(rows)
  {
    if TiedRowsAgree(rows) {
      forall one, other | one != [] && other != [] && SameRows(one, other) && (forall r :: r in one ==> r in rows)
        ensures SameChain(one, other, sentinel)
      {
        ReplaysAndReadOrderDoNotMatter(one, other, rows, sentinel);
      }
    }
    if RowsDecide(rows, sentinel) {
      forall a, b | a in rows && b in rows && Tied(a, b) ensures a == b {
        TiesAgreeWhenReadEitherWay(rows, sentinel, a, b);
      }
    }
  }

  lemma TiesAgreeWhenReadEitherWay(rows: set<Bronze>, sentinel: int, a: Bronze, b: Bronze)
    requires RowsDecide(rows, sentinel) && a in rows && b in rows && Tied(a, b)
    ensures a == b
  {
    var one, other := [a, b], [b, a];
    assert SameChain(one, other, sentinel) by {
      assert SameRows(one, other);
    }
    FirstOfATie(a, b, sentinel);
    FirstOfATie(b, a, sentinel);
  }

  /** Of two tied rows, the first version takes every column from the one read first. */
  lemma FirstOfATie(a: Bronze, b: Bronze, sentinel: int)
    requires Tied(a, b)
    ensures var first := Chain(Sorted([a, b]), sentinel)[0];
      && first.customer == a.customer && first.name == a.name && first.country == a.country
      && first.birthDate == a.birthDate && first.signupCountry == a.signupCountry
  {
    SortedTie(a, b);
    StartsAreStarts([a, b], 2);
    OuterRows([a, b], 0);
  }

  lemma SortedTie(a: Bronze, b: Bronze)
    requires Tied(a, b)
    ensures Sorted([a, b]) == [a, b]
  {
    assert [a, b][..1] == [a] && [a][..0] == [];
    assert Sorted([a]) == [a];
  }

  /** A single history may survive a disagreement: a value that is left and taken up again at
      the moment of the tie gives the same chain whichever of the tied rows comes first. */
  lemma OneHistoryMaySurviveATie(x: Bronze, x2: Bronze, y2: Bronze, last: Bronze, sentinel: int)
    requires Tied(x2, y2) && Before(x, x2) && Before(x2, last) && last == x2.(fileId := last.fileId)
    requires Tracked(x) == Tracked(x2) != Tracked(y2)
    ensures x2 != y2 && SameChain([x, x2, y2, last], [x, y2, x2, last], sentinel)
  {
    ThreeVersions(x, x2, y2, last, 2, 3, sentinel);
    ThreeVersions(x, y2, x2, last, 1, 2, sentinel);
  }

  lemma ThreeVersions(a: Bronze, b: Bronze, c: Bronze, d: Bronze, second: nat, third: nat, sentinel: int)
    requires Ascends([a, b, c, d]) && Before(a, d) && Before(b, d) && Before(c, d)
    requires 0 < second < third <= 3
    requires [second, third] ==
      (if Tracked(b) != Tracked(a) then [1] else []) + (if Tracked(c) != Tracked(b) then [2] else [])
      + if Tracked(d) != Tracked(c) then [3] else []
    ensures var rows := [a, b, c, d];
      Chain(Sorted(rows), sentinel) == [
        Made(a, d.birthDate, a.signupCountry, rows[second].eventTs, false),
        Made(rows[second], d.birthDate, a.signupCountry, rows[third].eventTs, false),
        Made(rows[third], d.birthDate, a.signupCountry, sentinel, true)]
  {
    var rows := [a, b, c, d];
    SortedAscending(rows);
    OuterRows(rows, 3);
    assert StartsTo(rows, 4) == [0] + [second, third] by {
      assert StartsTo(rows, 0) == [] && StartsTo(rows, 1) == [0];
      assert StartsTo(rows, 2) == [0] + if Tracked(b) != Tracked(a) then [1] else [];
      assert StartsTo(rows, 3) == StartsTo(rows, 2) + if Tracked(c) != Tracked(b) then [2] else [];
    }
  }

  lemma {:induction false} SortedAscending(rows: seq<Bronze>)
    requires Ascends(rows)
    ensures Sorted(rows) == rows
  {
    if rows != [] {
      SortedAscending(rows[..|rows| - 1]);
      SplitLast(rows);
    }
  }

  /** Versions follow each other without a gap, only the last is current and open-ended, and
      none but the last can end after a later one starts. */
  lemma ChainIsContiguous(ordered: seq<Bronze>, sentinel: int)
    requires ordered != [] && Ascends(ordered)
    ensures var chain := Chain(ordered, sentinel);
      && chain != [] && chain[0].validFrom == ordered[0].eventTs
      && (forall g :: 0 <= g < |chain| - 1 ==> chain[g].validTo == chain[g + 1].validFrom)
      && (forall g :: 0 <= g < |chain| ==> (chain[g].isCurrent <==> g == |chain| - 1))
      && chain[|chain| - 1].validTo == sentinel
      && (forall a, b :: 0 <= a < b < |chain| ==> chain[a].validTo <= chain[b].validFrom)
  {
    var chain := Chain(ordered, sentinel);
    ChainStart(ordered, sentinel);
    forall g | 0 <= g < |chain|
      ensures chain[g].isCurrent <==> g == |chain| - 1
      ensures chain[g].validTo == if g == |chain| - 1 then sentinel else chain[g + 1].validFrom
    {
      ChainLink(ordered, sentinel, g);
    }
    forall a, b | 0 <= a < b < |chain| ensures chain[a].validTo <= chain[b].validFrom {
      EndsBeforeLaterStarts(ordered, sentinel, a, b);
    }
  }

  lemma ChainStart(ordered: seq<Bronze>, sentinel: int)
    requires ordered != []
    ensures Chain(ordered, sentinel)[0].validFrom == ordered[0].eventTs
  {
    VersionSpan(ordered, sentinel, 0);
    StartsAreStarts(ordered, |ordered|);
  }

  lemma ChainLink(ordered: seq<Bronze>, sentinel: int, g: nat)
    requires ordered != [] && g < |Chain(ordered, sentinel)|
    ensures var chain := Chain(ordered, sentinel);
      && (chain[g].isCurrent <==> g == |chain| - 1)
      && chain[g].validTo == if g == |chain| - 1 then sentinel else chain[g + 1].validFrom
  {
    VersionSpan(ordered, sentinel, g);
    if g + 1 < |Chain(ordered, sentinel)| {
      VersionSpan(ordered, sentinel, g + 1);
    }
  }

  lemma EndsBeforeLaterStarts(ordered: seq<Bronze>, sentinel: int, a: nat, b: nat)
    requires ordered != [] && Ascends(ordered) && a < b < |Chain(ordered, sentinel)|
    ensures Chain(ordered, sentinel)[a].validTo <= Chain(ordered, sentinel)[b].validFrom
  {
    var starts := StartsTo(ordered, |ordered|);
    VersionSpan(ordered, sentinel, a);
    VersionSpan(ordered, sentinel, b);
    StartsAreStarts(ordered, |ordered|);
    StartsAscend(starts, a + 1, b);
    NotBeforeIsNotEarlier(ordered, starts[a + 1], starts[b]);
  }

  lemma NotBeforeIsNotEarlier(ordered: seq<Bronze>, i: nat, j: nat)
    requires Ascends(ordered) && i <= j < |ordered|
    ensures ordered[i].eventTs <= ordered[j].eventTs
  {
    assert i < j ==> !Before(ordered[j], ordered[i]);
  }

  lemma VersionSpan(ordered: seq<Bronze>, sentinel: int, g: nat)
    requires ordered != [] && g < |Chain(ordered, sentinel)|
    ensures var chain, starts := Chain(ordered, sentinel), StartsTo(ordered, |ordered|);
      && |starts| == |chain| && starts[g] < |ordered| && (g + 1 < |starts| ==> starts[g + 1] < |ordered|)
      && chain[g].validFrom == ordered[starts[g]].eventTs
      && chain[g].validTo == (if g == |chain| - 1 then sentinel else ordered[starts[g + 1]].eventTs)
      && (chain[g].isCurrent <==> g == |chain| - 1)
      && chain[g].name == ordered[starts[g]].name && chain[g].country == ordered[starts[g]].country
  {
    StartsAreStarts(ordered, |ordered|);
  }

  lemma VersionEndsAfterItStarts(ordered: seq<Bronze>, sentinel: int, g: nat)
    requires ordered != [] && Ascends(ordered) && g + 1 < |Chain(ordered, sentinel)|
    ensures Chain(ordered, sentinel)[g].validFrom <= Chain(ordered, sentinel)[g].validTo
  {
    var starts := StartsTo(ordered, |ordered|);
    VersionSpan(ordered, sentinel, g);
    StartsAreStarts(ordered, |ordered|);
    StartsAscend(starts, g, g + 1);
    NotBeforeIsNotEarlier(ordered, starts[g], starts[g + 1]);
  }

  lemma {:induction false} StartsAscend(starts: seq<nat>, a: nat, b: nat)
    requires a <= b < |starts| && forall k :: 0 <= k < |starts| - 1 ==> starts[k] < starts[k + 1]
    ensures starts[a] <= starts[b]
    decreases b - a
  {
    if a < b {
      StartsAscend(starts, a, b - 1);
    }
  }

  predicate Covers(v: Version, t: int) {
    v.validFrom <= t < v.validTo
  }

  /** The group of row i: the last start at or before it. */
  lemma {:induction false} GroupOf(ordered: seq<Bronze>, i: nat) returns (g: nat)
    requires i < |ordered|
    ensures var starts := StartsTo(ordered, |ordered|);
      && g < |starts| && starts[g] <= i < |ordered| && Tracked(ordered[starts[g]]) == Tracked(ordered[i])
      && (g + 1 < |starts| ==> i < starts[g + 1])
    decreases i
  {
    StartsAreStarts(ordered, |ordered|);
    var starts := StartsTo(ordered, |ordered|);
    if Starts(ordered, i) {
      g :| 0 <= g < |starts| && starts[g] == i;
    } else {
      g := GroupOf(ordered, i - 1);
      if g + 1 < |starts| {
        assert starts[g + 1] != i;
      }
    }
  }

  /** As of any moment after the first row and before the sentinel, exactly one version covers
      it, and it carries the tracked values of the last row not after that moment. */
  lemma ChainAnswersAsOf(ordered: seq<Bronze>, sentinel: int, i: nat, t: int) returns (g: nat)
    requires Ascends(ordered) && i < |ordered| && t < sentinel
    requires ordered[i].eventTs <= t && forall j :: i < j < |ordered| ==> ordered[j].eventTs > t
    ensures var chain := Chain(ordered, sentinel);
      && g < |chain| && Covers(chain[g], t)
      && (forall h :: 0 <= h < |chain| && Covers(chain[h], t) ==> h == g)
      && Text(chain[g].name) + "|" + Text(chain[g].country) == Tracked(ordered[i])
  {
    g := GroupOf(ordered, i);
    var chain := Chain(ordered, sentinel);
    StartsAreStarts(ordered, |ordered|);
    ChainIsContiguous(ordered, sentinel);
    var starts := StartsTo(ordered, |ordered|);
    assert starts[g] < i ==> !Before(ordered[i], ordered[starts[g]]);
    assert Covers(chain[g], t);
  }

  /** Every version carries the signup country of the first row, and the birth date of the
      first row tied with the last: `max` keeps the first of equals. */
  lemma UntrackedColumnsAreUniform(ordered: seq<Bronze>, sentinel: int, k: nat)
    requires Ascends(ordered) && k < |ordered| && Tied(ordered[k], ordered[|ordered| - 1])
    requires forall i :: 0 <= i < k ==> Before(ordered[i], ordered[|ordered| - 1])
    ensures forall g :: 0 <= g < |Chain(ordered, sentinel)| ==>
      && Chain(ordered, sentinel)[g].birthDate == ordered[k].birthDate
      && Chain(ordered, sentinel)[g].signupCountry == ordered[0].signupCountry
  {
    OuterRows(ordered, k);
  }

  lemma {:induction false} OuterRows(rows: seq<Bronze>, k: nat)
    requires Ascends(rows) && k < |rows| && Tied(rows[k], rows[|rows| - 1])
    requires forall i :: 0 <= i < k ==> Before(rows[i], rows[|rows| - 1])
    ensures Latest(rows) == rows[k] && Earliest(rows) == rows[0]
  {
    if |rows| > 1 {
      var j := FirstOfTheLast(rows[..|rows| - 1]);
      OuterRows(rows[..|rows| - 1], j);
    }
  }

  /** The first row tied with the last. */
  lemma {:induction false} FirstOfTheLast(rows: seq<Bronze>) returns (k: nat)
    requires rows != [] && Ascends(rows)
    ensures k < |rows| && Tied(rows[k], rows[|rows| - 1])
    ensures forall i :: 0 <= i < k ==> Before(rows[i], rows[|rows| - 1])
  {
    k := |rows| - 1;
    while k > 0 && !Before(rows[k - 1], rows[|rows| - 1])
      invariant k < |rows| && Tied(rows[k], rows[|rows| - 1])
    {
      k := k - 1;
    }
    assert k > 0 ==> forall i :: 0 <= i < k ==> !Before(rows[k - 1], rows[i]);
  }

  // ----- which rows a chain shows ---------------------------------------------------------

  /** The sorted history: first by event time, then by file, then by row number. */
  lemma SortedByKey(history: seq<Bronze>)
    ensures multiset(Sorted(history)) == multiset(history)
    ensures var s := Sorted(history);
      forall i, j :: 0 <= i < j < |s| ==>
        && s[i].eventTs <= s[j].eventTs
        && (s[i].eventTs == s[j].eventTs ==> s[i].fileId <= s[j].fileId)
        && (s[i].eventTs == s[j].eventTs && s[i].fileId == s[j].fileId ==> s[i].rowNumber <= s[j].rowNumber)
  {
    SortedAscends(history);
    SortedIsAPermutation(history);
  }

  /** No row of the history comes after this one: not by event time, nor by file at the same
      time, nor by row number in the same file. */
  ghost predicate IsGreatest(history: seq<Bronze>, r: Bronze) {
    r in history && forall x :: x in history ==>
      && x.eventTs <= r.eventTs
      && (x.eventTs == r.eventTs ==> x.fileId <= r.fileId)
      && (x.eventTs == r.eventTs && x.fileId == r.fileId ==> x.rowNumber <= r.rowNumber)
  }

  ghost predicate IsLeast(history: seq<Bronze>, r: Bronze) {
    r in history && forall x :: x in history ==>
      && r.eventTs <= x.eventTs
      && (x.eventTs == r.eventTs ==> r.fileId <= x.fileId)
      && (x.eventTs == r.eventTs && x.fileId == r.fileId ==> r.rowNumber <= x.rowNumber)
  }

  lemma LastIsGreatest(history: seq<Bronze>)
    requires history != []
    ensures var s := Sorted(history); IsGreatest(history, s[|s| - 1]) && IsLeast(history, s[0])
    ensures IsGreatest(history, Latest(Sorted(history))) && Earliest(Sorted(history)) == Sorted(history)[0]
  {
    var s := Sorted(history);
    SortedByKey(history);
    SortedAscends(history);
    SortedHolds(history);
    var k := FirstOfTheLast(s);
    OuterRows(s, k);
    assert s[|s| - 1] in s && s[0] in s && s[k] in s;
    forall x | x in history ensures !Before(s[|s| - 1], x) && !Before(x, s[0]) {
      assert x in s;
      var i :| 0 <= i < |s| && s[i] == x;
      assert i < |s| - 1 ==> !Before(s[|s| - 1], s[i]);
      assert 0 < i ==> !Before(s[i], s[0]);
    }
  }

  /** What a customer's versions show: every birth date is that of a row with the greatest key
      and every signup country that of a row with the least; the current version, alone open,
      has the joined name and country of a row with the greatest key, and without a pipe in a
      name also its name and its country. */
  lemma ChainShowsTheGreatestRow(history: seq<Bronze>, sentinel: int) returns (last: Bronze, dated: Bronze, first: Bronze)
    requires history != []
    ensures IsGreatest(history, last) && IsGreatest(history, dated) && IsLeast(history, first)
    ensures var chain := Chain(Sorted(history), sentinel); var current := chain[|chain| - 1];
      && (forall g :: 0 <= g < |chain| ==>
            && chain[g].birthDate == dated.birthDate && chain[g].signupCountry == first.signupCountry
            && (chain[g].isCurrent <==> g == |chain| - 1))
      && Text(current.name) + "|" + Text(current.country) == Tracked(last)
      && ((forall r :: r in history ==> '|' !in Text(r.name)) ==>
            Text(current.name) == Text(last.name) && Text(current.country) == Text(last.country))
  {
    var s := Sorted(history);
    var chain := Chain(s, sentinel);
    last, dated, first := s[|s| - 1], Latest(s), Earliest(s);
    LastIsGreatest(history);
    SortedAscends(history);
    SortedHolds(history);
    ChainIsContiguous(s, sentinel);
    var start := CurrentStart(s, sentinel);
    forall g | 0 <= g < |chain| ensures chain[g].birthDate == dated.birthDate && chain[g].signupCountry == first.signupCountry {
      VersionMade(s, sentinel, g);
    }
    assert s[start] in s;
    TrackedCollidesExactlyWhen(Text(s[start].name), Text(s[start].country), Text(last.name), Text(last.country));
    PipeFreeJoins(Text(s[start].name), Text(s[start].country), Text(last.name), Text(last.country));
  }

  /** The row the current version is made from: from there on the tracked text stays. */
  lemma CurrentStart(ordered: seq<Bronze>, sentinel: int) returns (i: nat)
    requires ordered != []
    ensures i < |ordered| && var chain := Chain(ordered, sentinel);
      chain[|chain| - 1].name == ordered[i].name && chain[|chain| - 1].country == ordered[i].country
    ensures Starts(ordered, i) && forall j :: i <= j < |ordered| ==> Tracked(ordered[j]) == Tracked(ordered[i])
  {
    var starts := StartsTo(ordered, |ordered|);
    StartsAreStarts(ordered, |ordered|);
    VersionMade(ordered, sentinel, |starts| - 1);
    i := starts[|starts| - 1];
    forall j | i < j < |ordered| ensures !Starts(ordered, j) {
      if k :| 0 <= k < |starts| && starts[k] == j {
        StartsAscend(starts, k, |starts| - 1);
      }
    }
    SameUntilAStart(ordered, i, |ordered|);
  }

  lemma {:induction false} SameUntilAStart(ordered: seq<Bronze>, i: nat, n: nat)
    requires i < n <= |ordered| && forall j :: i < j < n ==> !Starts(ordered, j)
    ensures forall j :: i <= j < n ==> Tracked(ordered[j]) == Tracked(ordered[i])
    decreases n
  {
    if n > i + 1 {
      SameUntilAStart(ordered, i, n - 1);
      assert !Starts(ordered, n - 1);
    }
  }

  lemma PipeFreeJoins(a: string, b: string, c: string, d: string)
    requires a + "|" + b == c + "|" + d
    ensures '|' !in a && '|' !in c ==> a == c && b == d
  {
    TrackedCollidesExactlyWhen(a, b, c, d);
    forall x ensures '|' in a + "|" + x && '|' in c + "|" + x {
      assert (a + "|" + x)[|a|] == '|' && (c + "|" + x)[|c|] == '|';
    }
  }

  /** The current version names the row `max` picks. */
  ghost predicate ShowsTheLatest(history: seq<Bronze>, sentinel: int)
    requires history != []
  {
    var chain := Chain(Sorted(history), sentinel);
    var latest := Latest(Sorted(history));
    chain[|chain| - 1].name == latest.name && chain[|chain| - 1].country == latest.country
  }

  /** Two rows that read alike are alike: tied rows join alike, and untied rows that join
      alike have one name and one country. */
  ghost predicate JoinsDistinguish(rows: set<Bronze>) {
    forall a, b :: a in rows && b in rows ==>
      if Tied(a, b) then Tracked(a) == Tracked(b)
      else Tracked(a) == Tracked(b) ==> a.name == b.name && a.country == b.country
  }

  ghost predicate AlwaysShowsTheLatest(rows: set<Bronze>, sentinel: int) {
    forall history | history != [] && (forall r :: r in history ==> r in rows) :: ShowsTheLatest(history, sentinel)
  }

  /** Every history of a table's rows has its latest row's name and country as the current
      ones if and only if those joins distinguish. */
  lemma AlwaysShowsTheLatestExactlyWhen(rows: set<Bronze>, sentinel: int)
    ensures AlwaysShowsTheLatest(rows, sentinel) <==> JoinsDistinguish(rows)
  {
    if JoinsDistinguish(rows) {
      forall history | history != [] && (forall r :: r in history ==> r in rows) ensures ShowsTheLatest(history, sentinel) {
        DistinguishedLatestIsShown(history, rows, sentinel);
      }
    }
    if AlwaysShowsTheLatest(rows, sentinel) {
      forall a, b | a in rows && b in rows
        ensures if Tied(a, b) then Tracked(a) == Tracked(b)
                else Tracked(a) == Tracked(b) ==> a.name == b.name && a.country == b.country
      {
        if Before(b, a) {
          ShowingTellsApart(rows, sentinel, b, a);
        } else {
          ShowingTellsApart(rows, sentinel, a, b);
        }
      }
    }
  }

  lemma ShowingTellsApart(rows: set<Bronze>, sentinel: int, a: Bronze, b: Bronze)
    requires AlwaysShowsTheLatest(rows, sentinel) && a in rows && b in rows && !Before(b, a)
    ensures if Tied(a, b) then Tracked(a) == Tracked(b)
            else Tracked(a) == Tracked(b) ==> a.name == b.name && a.country == b.country
  {
    assert ShowsTheLatest([a, b], sentinel);
    TwoRows(a, b, sentinel);
  }

  lemma DistinguishedLatestIsShown(history: seq<Bronze>, rows: set<Bronze>, sentinel: int)
    requires history != [] && JoinsDistinguish(rows) && forall r :: r in history ==> r in rows
    ensures ShowsTheLatest(history, sentinel)
  {
    var s := Sorted(history);
    SortedAscends(history);
    SortedHolds(history);
    var k := FirstOfTheLast(s);
    OuterRows(s, k);
    var i := CurrentStart(s, sentinel);
    forall j | 0 <= j < |s| ensures s[j] in rows {
      assert s[j] in s;
    }
    LatestNamesTheStart(s, rows, k, i);
  }

  /** The first row tied with the last, and the row of the last change. */
  lemma LatestNamesTheStart(s: seq<Bronze>, rows: set<Bronze>, k: nat, i: nat)
    requires Ascends(s) && JoinsDistinguish(rows) && forall j :: 0 <= j < |s| ==> s[j] in rows
    requires k < |s| && Tied(s[k], s[|s| - 1]) && forall j :: 0 <= j < k ==> Before(s[j], s[|s| - 1])
    requires i < |s| && Starts(s, i) && forall j :: i <= j < |s| ==> Tracked(s[j]) == Tracked(s[i])
    ensures s[i].name == s[k].name && s[i].country == s[k].country
  {
    if i < k {
      assert s[i] in rows && s[k] in rows && !Tied(s[i], s[k]);
    }
  }

  lemma TwoRows(a: Bronze, b: Bronze, sentinel: int)
    requires !Before(b, a)
    ensures Sorted([a, b]) == [a, b] && Latest([a, b]) == if Before(a, b) then b else a
    ensures var chain := Chain([a, b], sentinel); var shown := if Tracked(a) == Tracked(b) then a else b;
      chain[|chain| - 1].name == shown.name && chain[|chain| - 1].country == shown.country
  {
    SortedAscending([a, b]);
    OuterRows([a, b], if Before(a, b) then 1 else 0);
    var i := CurrentStart([a, b], sentinel);
  }

  // ----- the tracked hash -----------------------------------------------------------------

  /** Joining by a pipe confuses two pairs of values if and only if they are equal as texts, or
      one pair is the other with the pipe read elsewhere. */
  lemma TrackedCollidesExactlyWhen(a: string, b: string, c: string, d: string)
    ensures a + "|" + b == c + "|" + d <==>
      || (a == c && b == d)
      || (exists x :: c == a + "|" + x && b == x + "|" + d)
      || (exists x :: a == c + "|" + x && d == x + "|" + b)
  {
    if a + "|" + b == c + "|" + d {
      if |a| < |c| {
        PipeMoved(a, b, c, d);
      } else if |c| < |a| {
        PipeMoved(c, d, a, b);
      } else {
        assert a == (a + "|" + b)[..|a|] && c == (c + "|" + d)[..|c|];
        assert b == (a + "|" + b)[|a| + 1..] && d == (c + "|" + d)[|c| + 1..];
      }
    }
    if x :| c == a + "|" + x && b == x + "|" + d {
      assert a + "|" + b == c + "|" + d;
    }
    if x :| a == c + "|" + x && d == x + "|" + b {
      assert a + "|" + b == c + "|" + d;
    }
  }

  lemma PipeMoved(a: string, b: string, c: string, d: string)
    requires a + "|" + b == c + "|" + d && |a| < |c|
    ensures exists x :: c == a + "|" + x && b == x + "|" + d
  {
    var joined := a + "|" + b;
    var x := c[|a| + 1..];
    assert joined[..|c|] == c && joined[..|a|] == a && joined[|a|] == '|';
    assert c[..|a|] == a && c[|a|] == '|';
    assert c == a + "|" + x;
    assert joined[|a| + 1..] == b;
    assert b == x + "|" + d;
  }

  /** So without a pipe in a name, a new version starts exactly when name or country changed. */
  lemma StartsExactlyAtChanges(ordered: seq<Bronze>, i: nat)
    requires 0 < i < |ordered| && forall r :: r in ordered ==> '|' !in Text(r.name)
    ensures Starts(ordered, i) <==>
      Text(ordered[i].name) != Text(ordered[i - 1].name) || Text(ordered[i].country) != Text(ordered[i - 1].country)
  {
    var a, b := Text(ordered[i].name), Text(ordered[i].country);
    var c, d := Text(ordered[i - 1].name), Text(ordered[i - 1].country);
    TrackedCollidesExactlyWhen(a, b, c, d);
    forall x ensures c != a + "|" + x && a != c + "|" + x {
      assert (a + "|" + x)[|a|] == '|' && (c + "|" + x)[|c|] == '|';
    }
  }

  /** An absent value joins like an empty one, so a change between the two starts no version. */
  lemma AbsentAndEmptyAreOne(ordered: seq<Bronze>, i: nat)
    requires 0 < i < |ordered|
    requires ordered[i].name == None && ordered[i - 1].name == Some("") && ordered[i].country == ordered[i - 1].country
    ensures !Starts(ordered, i)
  {
  }

  lemma AMovedPipeHidesAChange()
    ensures var first := Bronze(1, Some("a|b"), Some("c"), None, 10, None, 1, 1);
      var second := Bronze(1, Some("a"), Some("b|c"), None, 20, None, 2, 1);
      |Chain([first, second], 99)| == 1
  {
    var first := Bronze(1, Some("a|b"), Some("c"), None, 10, None, 1, 1);
    var second := Bronze(1, Some("a"), Some("b|c"), None, 20, None, 2, 1);
    var ordered := [first, second];
    assert Tracked(first) == "a|b|c" == Tracked(second);
    assert StartsTo(ordered, 0) == [] && StartsTo(ordered, 1) == [0];
    assert StartsTo(ordered, 2) == [0];
  }
}
