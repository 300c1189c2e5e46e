/**
  The ordered corpus manifest: the checks that relate one fixture to an earlier one, and
  the single ordered pass that generates them into a directory.
 */
module CorpusManifest {
  import M = Multipart
  import opened Options

  datatype Kind = Tabular | Literal | LiteralUnicode | Wrapper | Multipart

  /** What the cross-fixture checks and the dispatcher read. `records` counts the header,
      for the kinds that declare their records. */
  datatype Fixture = Fixture(
    name: string,
    kind: Kind,
    large: bool,
    encoding: string,
    terminator: string,
    cycle: bool,
    records: nat,
    wraps: string,
    parts: nat)

  predicate WrapsAnother(f: Fixture) {
    f.kind == Wrapper || f.kind == Multipart
  }

  predicate RecordStructured(f: Fixture) {
    f.kind == Tabular || f.kind == LiteralUnicode
  }

  // ----- loading -----------------------------------------------------------------

  /** `_check_multipart_target`. */
  predicate Splittable(f: Fixture, target: Fixture) {
    && RecordStructured(target) && !target.large && !target.cycle
    && target.encoding == f.encoding && target.terminator == f.terminator
    && target.records - 1 >= f.parts
  }

  /** The count of data records is the one thing that matters for the parts: with it, and only
      with it, no part is dealt an empty share. */
  lemma SplittableExactlyWhenNoPartIsEmpty(f: Fixture, target: Fixture)
    requires f.parts > 0 && target.records > 0
    requires RecordStructured(target) && !target.large && !target.cycle
    requires target.encoding == f.encoding && target.terminator == f.terminator
    ensures Splittable(f, target) <==> 0 !in Shares(target.records - 1, f.parts)
  {
    var n, p := target.records - 1, f.parts;
    if n < p {
      assert n / p == 0 && n % p == n && Shares(n, p)[n] == 0;
    } else {
      assert n / p >= 1;
    }
  }

  /** The number of data records in each part. */
  function Shares(records: nat, parts: nat): seq<nat>
    requires parts > 0
  {
    seq(parts, i requires 0 <= i < parts => M.PartSize(records, parts, i))
  }

  /** Fixture i has a new name, and what it wraps is declared before it and fits. */
  ghost predicate Fits(fixtures: seq<Fixture>, i: nat)
    requires i < |fixtures|
  {
    var f := fixtures[i];
    && (forall j :: 0 <= j < i ==> fixtures[j].name != f.name)
    && (WrapsAnother(f) ==> exists j :: 0 <= j < i && IsTarget(f, fixtures[j]))
  }

  predicate IsTarget(f: Fixture, target: Fixture) {
    target.name == f.wraps && (f.kind == Multipart ==> Splittable(f, target))
  }

  ghost predicate Accepted(fixtures: seq<Fixture>) {
    forall i :: 0 <= i < |fixtures| ==> Fits(fixtures, i)
  }

  datatype Loaded = Manifest | Rejected(index: nat)

  /** The fixture loop of `parse_manifest`, which reports the first fixture that does not fit. */
  method ParseManifest(fixtures: seq<Fixture>) returns (r: Loaded)
    ensures r.Manifest? <==> Accepted(fixtures)
    ensures r.Rejected? ==>
      r.index < |fixtures| && Accepted(fixtures[..r.index]) && !Fits(fixtures, r.index)
  {
    var byName: map<string, Fixture> := map[];
    for i := 0 to |fixtures|
      invariant forall j :: 0 <= j < i ==> Fits(fixtures, j)
      invariant forall j :: 0 <= j < i ==> fixtures[j].name in byName && byName[fixtures[j].name] == fixtures[j]
      invariant forall n :: n in byName ==> exists j :: 0 <= j < i && fixtures[j].name == n
    {
      var f := fixtures[i];
      if f.name in byName
         || (WrapsAnother(f) && f.wraps !in byName)
         || (f.kind == Multipart && !Splittable(f, byName[f.wraps]))
      {
        assert !Fits(fixtures, i) by {
          if f.name !in byName && f.wraps in byName {
            forall j | 0 <= j < i && fixtures[j].name == f.wraps ensures !IsTarget(f, fixtures[j]) {
            }
          }
        }
        PrefixFits(fixtures, i);
        return Rejected(i);
      }
      if WrapsAnother(f) {
        assert IsTarget(f, byName[f.wraps]);
      }
      byName := byName[f.name := f];
    }
    r := Manifest;
  }

  lemma PrefixFits(fixtures: seq<Fixture>, n: nat)
    requires n <= |fixtures| && forall j :: 0 <= j < n ==> Fits(fixtures, j)
    ensures Accepted(fixtures[..n])
  {
    forall i | 0 <= i < n ensures Fits(fixtures[..n], i) {
      assert Fits(fixtures, i);
      if WrapsAnother(fixtures[i]) {
        var j :| 0 <= j < i && IsTarget(fixtures[i], fixtures[j]);
        assert fixtures[..n][j] == fixtures[j];
      }
    }
  }

  /** In an accepted manifest the target of a wrapping fixture is one earlier fixture. */
  lemma TargetIsUnique(fixtures: seq<Fixture>, i: nat) returns (j: nat)
    requires Accepted(fixtures) && i < |fixtures| && WrapsAnother(fixtures[i])
    ensures j < i && IsTarget(fixtures[i], fixtures[j])
    ensures forall k :: 0 <= k < |fixtures| && fixtures[k].name == fixtures[i].wraps ==> k == j
  {
    assert Fits(fixtures, i);
    j :| 0 <= j < i && IsTarget(fixtures[i], fixtures[j]);
    forall k | 0 <= k < |fixtures| && fixtures[k].name == fixtures[i].wraps ensures k == j {
      assert Fits(fixtures, k) && Fits(fixtures, j);
    }
  }

  // ----- generating ------------------------------------------------------------------

  datatype Node = File | Directory

  /** The output directory, by fixture name. */
  type Disk = map<string, Node>

  predicate IsFile(disk: Disk, name: string) {
    name in disk && disk[name] == File
  }

  predicate Skipped(f: Fixture, fast: bool) {
    fast && f.large
  }

  function Emits(f: Fixture): Node {
    if f.kind == Multipart then Directory else File
  }

  /** Whether one fixture can be written: its own path must not be taken by the other kind of
      node, and a wrapping fixture's target must be a regular file. */
  predicate Writable(f: Fixture, disk: Disk) {
    && (f.name in disk ==> disk[f.name] == Emits(f))
    && (WrapsAnother(f) ==> IsFile(disk, f.wraps))
  }

  /** The disk after the fixtures before the end were written. */
  function After(fixtures: seq<Fixture>, fast: bool, disk: Disk): Disk {
    if fixtures == [] then disk
    else
      var last := fixtures[|fixtures| - 1];
      var before := After(fixtures[..|fixtures| - 1], fast, disk);
      if Skipped(last, fast) then before else before[last.name := Emits(last)]
  }

  /** One emitted file: a fixture's own, or one part of a part set. */
  datatype Output = Whole(name: string) | Part(name: string, index: nat)

  /** `output_names`. */
  function OutputNames(f: Fixture): seq<Output> {
    if f.kind == Multipart then seq(f.parts, (i: nat) => Part(f.name, i)) else [Whole(f.name)]
  }

  function Outputs(fixtures: seq<Fixture>, fast: bool): seq<Output> {
    if fixtures == [] then []
    else Outputs(fixtures[..|fixtures| - 1], fast) +
         if Skipped(fixtures[|fixtures| - 1], fast) then [] else OutputNames(fixtures[|fixtures| - 1])
  }

  predicate WritableInTurn(fixtures: seq<Fixture>, i: nat, fast: bool, start: Disk)
    requires i < |fixtures|
  {
    !Skipped(fixtures[i], fast) ==> Writable(fixtures[i], After(fixtures[..i], fast, start))
  }

  predicate AllWritable(fixtures: seq<Fixture>, fast: bool, start: Disk) {
    forall i :: 0 <= i < |fixtures| ==> WritableInTurn(fixtures, i, fast, start)
  }

  lemma OneMore(fixtures: seq<Fixture>, i: nat, fast: bool, start: Disk)
    requires i < |fixtures|
    ensures var f := fixtures[i]; var before := After(fixtures[..i], fast, start);
      && After(fixtures[..i + 1], fast, start) == (if Skipped(f, fast) then before else before[f.name := Emits(f)])
      && Outputs(fixtures[..i + 1], fast) ==
           Outputs(fixtures[..i], fast) + if Skipped(f, fast) then [] else OutputNames(f)
  {
    assert fixtures[..i + 1][..i] == fixtures[..i];
  }

  datatype Outcome = Generated(digests: seq<Output>) | Failed(index: nat)

  /** `generate_corpus`: one ordered pass that stops at the first fixture it cannot write. */
  method GenerateCorpus(fixtures: seq<Fixture>, fast: bool, start: Disk) returns (r: Outcome, disk: Disk)
    ensures r.Generated? <==> AllWritable(fixtures, fast, start)
    ensures r.Generated? ==> r.digests == Outputs(fixtures, fast) && disk == After(fixtures, fast, start)
    ensures r.Failed? ==> r.index < |fixtures| && disk == After(fixtures[..r.index], fast, start)
  {
    disk := start;
    var digests := [];
    for i := 0 to |fixtures|
      invariant disk == After(fixtures[..i], fast, start) && digests == Outputs(fixtures[..i], fast)
      invariant forall j :: 0 <= j < i ==> WritableInTurn(fixtures, j, fast, start)
    {
      var f := fixtures[i];
      OneMore(fixtures, i, fast, start);
      if !Skipped(f, fast) {
        if !Writable(f, disk) {
          assert !WritableInTurn(fixtures, i, fast, start);
          return Failed(i), disk;
        }
        disk := disk[f.name := Emits(f)];
        digests := digests + OutputNames(f);
      }
    }
    assert fixtures[..|fixtures|] == fixtures;
    r := Generated(digests);
  }

  // ----- what loading guarantees about generating ---------------------------------------

  lemma {:induction false} NotYetWritten(fixtures: seq<Fixture>, fast: bool, disk: Disk, name: string)
    requires forall i :: 0 <= i < |fixtures| ==> fixtures[i].name != name
    ensures name in After(fixtures, fast, disk) <==> name in disk
    ensures name in disk ==> After(fixtures, fast, disk)[name] == disk[name]
  {
    if fixtures != [] {
      NotYetWritten(fixtures[..|fixtures| - 1], fast, disk, name);
    }
  }

  /** What stands under an earlier fixture's name: its own output, or what was there. */
  lemma {:induction false} Written(fixtures: seq<Fixture>, fast: bool, disk: Disk, j: nat)
    requires j < |fixtures| && forall i, k :: 0 <= i < k < |fixtures| ==> fixtures[i].name != fixtures[k].name
    ensures var after := After(fixtures, fast, disk); var name := fixtures[j].name;
      && (!Skipped(fixtures[j], fast) ==> name in after && after[name] == Emits(fixtures[j]))
      && (Skipped(fixtures[j], fast) ==> (name in after <==> name in disk) && (name in disk ==> after[name] == disk[name]))
  {
    var init := fixtures[..|fixtures| - 1];
    if j == |fixtures| - 1 {
      NotYetWritten(init, fast, disk, fixtures[j].name);
    } else {
      Written(init, fast, disk, j);
      assert fixtures[|fixtures| - 1].name != fixtures[j].name;
    }
  }

  /** The condition a caller can check: no output path is taken by the other kind of node,
      no wrapper wraps a part set, and a skipped target is already there as a file. */
  ghost predicate CanGenerate(fixtures: seq<Fixture>, fast: bool, start: Disk) {
    forall i :: 0 <= i < |fixtures| && !Skipped(fixtures[i], fast) ==>
      CanWrite(fixtures, i, fast, start)
  }

  ghost predicate CanWrite(fixtures: seq<Fixture>, i: nat, fast: bool, start: Disk)
    requires i < |fixtures|
  {
    var f := fixtures[i];
    && (f.name in start ==> start[f.name] == Emits(f))
    && (f.kind == Wrapper ==>
          forall j :: 0 <= j < i && IsTarget(f, fixtures[j]) ==>
            if Skipped(fixtures[j], fast) then IsFile(start, fixtures[j].name) else fixtures[j].kind != Multipart)
  }

  lemma WritableExactlyWhen(fixtures: seq<Fixture>, fast: bool, start: Disk, i: nat)
    requires Accepted(fixtures) && i < |fixtures|
    ensures Writable(fixtures[i], After(fixtures[..i], fast, start)) <==> CanWrite(fixtures, i, fast, start)
  {
    var f, before := fixtures[i], fixtures[..i];
    assert Fits(fixtures, i);
    NotYetWritten(before, fast, start, f.name);
    if WrapsAnother(f) {
      var j := TargetIsUnique(fixtures, i);
      forall a, b | 0 <= a < b < |before| ensures before[a].name != before[b].name {
        assert Fits(fixtures, b);
      }
      Written(before, fast, start, j);
      assert before[j] == fixtures[j];
    }
  }

  /** An accepted manifest generates if and only if its wrappers wrap regular files that
      this run, or an earlier one, has written: being accepted is not enough. */
  lemma AcceptedManifestGeneratesExactlyWhen(fixtures: seq<Fixture>, fast: bool, start: Disk)
    requires Accepted(fixtures)
    ensures AllWritable(fixtures, fast, start) <==> CanGenerate(fixtures, fast, start)
  {
    forall i | 0 <= i < |fixtures|
      ensures WritableInTurn(fixtures, i, fast, start) <==>
        (!Skipped(fixtures[i], fast) ==> CanWrite(fixtures, i, fast, start))
    {
      WritableExactlyWhen(fixtures, fast, start, i);
    }
  }

  ghost predicate WrapsAPartSet(fixtures: seq<Fixture>) {
    exists i, j :: 0 <= j < i < |fixtures| && fixtures[i].kind == Wrapper
      && IsTarget(fixtures[i], fixtures[j]) && fixtures[j].kind == Multipart
  }

  /** A full run into a new directory succeeds if and only if no wrapper wraps a part set. */
  lemma FullRunGeneratesExactlyWhen(fixtures: seq<Fixture>)
    requires Accepted(fixtures)
    ensures CanGenerate(fixtures, false, map[]) <==> !WrapsAPartSet(fixtures)
  {
    if WrapsAPartSet(fixtures) {
      var i, j :| 0 <= j < i < |fixtures| && fixtures[i].kind == Wrapper
        && IsTarget(fixtures[i], fixtures[j]) && fixtures[j].kind == Multipart;
      assert !CanWrite(fixtures, i, false, map[]);
    }
    if !CanGenerate(fixtures, false, map[]) {
      var i :| 0 <= i < |fixtures| && !CanWrite(fixtures, i, false, map[]);
      var j :| 0 <= j < i && IsTarget(fixtures[i], fixtures[j]) && fixtures[j].kind == Multipart;
      assert WrapsAPartSet(fixtures);
    }
  }

  /** Once a full run has succeeded, every further run over the same directory does, fast
      or not. */
  lemma RegeneratingAlwaysWorks(fixtures: seq<Fixture>, fast: bool)
    requires Accepted(fixtures) && !WrapsAPartSet(fixtures)
    ensures CanGenerate(fixtures, fast, After(fixtures, false, map[]))
  {
    var start := After(fixtures, false, map[]);
    forall a, b | 0 <= a < b < |fixtures| ensures fixtures[a].name != fixtures[b].name {
      assert Fits(fixtures, b);
    }
    forall i | 0 <= i < |fixtures|
      ensures fixtures[i].name in start && start[fixtures[i].name] == Emits(fixtures[i])
    {
      Written(fixtures, false, map[], i);
    }
  }

  /** The shortest accepted manifest that cannot be generated: a table, its two parts, and
      a wrapper over the part set. */
  lemma AcceptedButNotGenerated()
    ensures var table := Fixture("t", Tabular, false, "utf-8", "\n", false, 3, "", 0);
      var partSet := Fixture("p", Multipart, false, "utf-8", "\n", false, 0, "t", 2);
      var wrapper := Fixture("w", Wrapper, false, "utf-8", "\n", false, 0, "p", 0);
      var fixtures := [table, partSet, wrapper];
      && Accepted(fixtures) && Accepted(fixtures[..2])
      && CanGenerate(fixtures[..2], false, map[]) && !CanGenerate(fixtures, false, map[])
  {
    var table := Fixture("t", Tabular, false, "utf-8", "\n", false, 3, "", 0);
    var partSet := Fixture("p", Multipart, false, "utf-8", "\n", false, 0, "t", 2);
    var wrapper := Fixture("w", Wrapper, false, "utf-8", "\n", false, 0, "p", 0);
    var fixtures := [table, partSet, wrapper];
    assert IsTarget(partSet, fixtures[0]) && IsTarget(wrapper, fixtures[1]);
    assert Fits(fixtures, 0) && Fits(fixtures, 1) && Fits(fixtures, 2);
    PrefixFits(fixtures, 2);
    FullRunGeneratesExactlyWhen(fixtures);
    FullRunGeneratesExactlyWhen(fixtures[..2]);
    assert !WrapsAPartSet(fixtures[..2]);
  }
}
