/**
  The files table: content-duplicate pointers as discovery writes them, and the repair of
  the rows an unordered lookup left without one.
 */
module DuplicateLineage {
  import opened Options

  datatype File = File(dataset: nat, uri: string, content: string, filename: string, status: string, duplicateOf: Option<nat>)

  type Files = map<nat, File>

  // ----- content groups ----------------------------------------------------------

  predicate SameContent(a: File, b: File) {
    a.dataset == b.dataset && a.content == b.content
  }

  /** The rows of a dataset that hold this content. */
  function Holding(files: Files, dataset: nat, content: string): set<nat> {
    set k | k in files && files[k].dataset == dataset && files[k].content == content
  }

  function Group(files: Files, id: nat): (g: set<nat>)
    requires id in files
    ensures id in g
  {
    Holding(files, files[id].dataset, files[id].content)
  }

  predicate IsSmallest(s: set<nat>, m: nat) {
    m in s && forall x :: x in s ==> m <= x
  }

  lemma {:induction false} FindSmallest(s: set<nat>) returns (m: nat)
    requires s != {}
    ensures IsSmallest(s, m)
    decreases |s|
  {
    m :| m in s;
    var rest := s - {m};
    if rest != {} {
      var n := FindSmallest(rest);
      var x := m;
      m := if n < x then n else x;
      assert s == rest + {x};
    }
  }

  lemma SmallestExists(s: set<nat>)
    requires s != {}
    ensures exists m :: IsSmallest(s, m)
  {
    var m := FindSmallest(s);
  }

  function Smallest(s: set<nat>): (m: nat)
    requires s != {}
    ensures IsSmallest(s, m)
  {
    SmallestExists(s);
    var m :| IsSmallest(s, m);
    m
  }

  /** The true original of a row: its content group's smallest id. */
  function Original(files: Files, id: nat): nat
    requires id in files
  {
    Smallest(Group(files, id))
  }

  /** A non-original row of a group of several without a pointer. */
  predicate IsOrphan(files: Files, id: nat) {
    id in files && |Group(files, id)| > 1 && id != Original(files, id) && files[id].duplicateOf.None?
  }

  function Orphans(files: Files): set<nat> {
    set id | id in files && IsOrphan(files, id)
  }

  lemma OrphanExactlyWhen(files: Files, id: nat)
    requires id in files
    ensures IsOrphan(files, id) <==> id != Original(files, id) && files[id].duplicateOf.None?
  {
    var original := Original(files, id);
    if id != original {
      assert {id, original} <= Group(files, id);
      SubsetSize({id, original}, Group(files, id));
    }
  }

  lemma NoOrphan(files: Files, id: nat)
    requires Orphans(files) == {}
    ensures !IsOrphan(files, id)
  {
    assert IsOrphan(files, id) ==> id in Orphans(files);
  }

  lemma {:induction false} SubsetSize(a: set<nat>, b: set<nat>)
    requires a <= b
    ensures |a| <= |b|
    decreases |a|
  {
    if a != {} {
      var x :| x in a;
      SubsetSize(a - {x}, b - {x});
    }
  }

  // ----- the repair statements --------------------------------------------------------

  /** The repair UPDATE on values. */
  function Repaired(files: Files): Files {
    map id | id in files ::
      if IsOrphan(files, id) then files[id].(duplicateOf := Some(Original(files, id))) else files[id]
  }

  lemma RepairKeepsGroups(files: Files, id: nat)
    requires id in files
    ensures id in Repaired(files) && Group(Repaired(files), id) == Group(files, id)
    ensures Original(Repaired(files), id) == Original(files, id)
  {
    assert Group(Repaired(files), id) == Group(files, id);
  }

  /** One repair leaves no orphan. */
  lemma RepairLeavesNoOrphan(files: Files)
    ensures Orphans(Repaired(files)) == {}
  {
    forall id | id in files ensures !IsOrphan(Repaired(files), id) {
      RepairKeepsGroups(files, id);
    }
  }

  lemma RepairIsIdempotent(files: Files)
    ensures Repaired(Repaired(files)) == Repaired(files)
  {
    RepairLeavesNoOrphan(files);
    forall id | id in files ensures Repaired(Repaired(files))[id] == Repaired(files)[id] {
      NoOrphan(Repaired(files), id);
    }
  }

  /** Exactly the diagnosed rows change, in the pointer only, to their group's smallest id. */
  lemma RepairChangesExactlyTheOrphans(files: Files, id: nat)
    requires id in files
    ensures Repaired(files)[id] != files[id] <==> id in Orphans(files)
    ensures Repaired(files)[id] == files[id].(duplicateOf := Repaired(files)[id].duplicateOf)
    ensures id in Orphans(files) ==> Repaired(files)[id].duplicateOf == Some(Original(files, id)) && Original(files, id) < id
  {
  }

  // ----- following pointers -------------------------------------------------------------

  /** Pointers go to smaller ids of the same content group. */
  predicate PointersDescend(files: Files) {
    forall id :: id in files && files[id].duplicateOf.Some? ==>
      files[id].duplicateOf.value < id && files[id].duplicateOf.value in Group(files, id)
  }

  /** Every row but a group's original has such a pointer. */
  predicate Sound(files: Files) {
    PointersDescend(files) && Orphans(files) == {}
  }

  function Follow(files: Files, id: nat): (root: nat)
    requires PointersDescend(files) && id in files
    ensures root in files && files[root].duplicateOf.None? && SameContent(files[root], files[id])
    decreases id
  {
    if files[id].duplicateOf.None? then id else Follow(files, files[id].duplicateOf.value)
  }

  /** Without orphans, pointers lead from every row to its group's smallest id. */
  lemma FollowReachesTheOriginal(files: Files, id: nat)
    requires Sound(files) && id in files
    ensures Follow(files, id) == Original(files, id)
  {
    var root := Follow(files, id);
    assert Group(files, root) == Group(files, id);
    OrphanExactlyWhen(files, root);
    NoOrphan(files, root);
  }

  /** So after a repair of rows whose pointers descended. */
  lemma RepairRestoresLineage(files: Files, id: nat)
    requires PointersDescend(files) && id in files
    ensures Sound(Repaired(files)) && Follow(Repaired(files), id) == Original(files, id)
  {
    var after := Repaired(files);
    forall k | k in after && after[k].duplicateOf.Some?
      ensures after[k].duplicateOf.value < k && after[k].duplicateOf.value in Group(after, k)
    {
      RepairKeepsGroups(files, k);
    }
    RepairLeavesNoOrphan(files);
    RepairKeepsGroups(files, id);
    FollowReachesTheOriginal(after, id);
  }

  // ----- discovery ------------------------------------------------------------------------

  /** Whether a lookup by content may return this: with the ordering, only the smallest id. */
  predicate MayFind(files: Files, dataset: nat, content: string, ordered: bool, found: Option<nat>) {
    var held := Holding(files, dataset, content);
    && (found.None? <==> held == {})
    && (found.Some? ==> found.value in held && (ordered ==> found.value == Smallest(held)))
  }

  /** The row an upsert conflicts with. */
  predicate Conflicts(files: Files, id: nat, dataset: nat, uri: string, content: string) {
    id in files && files[id].dataset == dataset && files[id].uri == uri && files[id].content == content
  }

  predicate Keyed(files: Files, nextId: nat) {
    && (forall id :: id in files ==> id < nextId)
    && (forall a, b :: a in files && b in files && a != b ==>
          !(files[a].dataset == files[b].dataset && files[a].uri == files[b].uri && files[a].content == files[b].content))
  }

  /** The effect of one registration: one row, new or known by its identity, with a pointer
      to the lookup's result unless that is the row itself. */
  ghost predicate Registered(before: Files, after: Files, nextId: nat, id: nat, dataset: nat, uri: string, content: string,
                             filename: string, skip: bool, found: Option<nat>) {
    var duplicateOf := if skip && found != Some(id) then found else None;
    if Conflicts(before, id, dataset, uri, content) then
      after == before[id := before[id].(filename := filename, duplicateOf := duplicateOf)]
    else
      && id == nextId && (forall k :: k in before ==> !Conflicts(before, k, dataset, uri, content))
      && after == before[id := File(dataset, uri, content, filename, "DISCOVERED", duplicateOf)]
  }

  class FilesTable {
    var files: Files
    var nextId: nat

    constructor ()
      ensures files == map[] && nextId == 0
    {
      files, nextId := map[], 0;
    }

    /** `create_file`: insert, or overwrite the file name and pointer of the same identity. */
    method CreateFile(dataset: nat, uri: string, content: string, filename: string, duplicateOf: Option<nat>)
      returns (id: nat)
      requires Keyed(files, nextId)
      modifies this
      ensures Keyed(files, nextId)
      ensures Conflicts(old(files), id, dataset, uri, content) ==>
        files == old(files)[id := old(files)[id].(filename := filename, duplicateOf := duplicateOf)]
      ensures !Conflicts(old(files), id, dataset, uri, content) ==>
        && id == old(nextId) && (forall k :: k in old(files) ==> !Conflicts(old(files), k, dataset, uri, content))
        && files == old(files)[id := File(dataset, uri, content, filename, "DISCOVERED", duplicateOf)]
    {
      if k :| k in files && Conflicts(files, k, dataset, uri, content) {
        id := k;
        files := files[k := files[k].(filename := filename, duplicateOf := duplicateOf)];
      } else {
        id := nextId;
        files := files[id := File(dataset, uri, content, filename, "DISCOVERED", duplicateOf)];
        nextId := nextId + 1;
      }
    }

    /** Registering one discovered object; `found` is what the content lookup returned. */
    method Register(dataset: nat, uri: string, content: string, filename: string, skip: bool, found: Option<nat>)
      returns (id: nat)
      requires Keyed(files, nextId) && MayFind(files, dataset, content, false, found)
      modifies this
      ensures Keyed(files, nextId)
      ensures Registered(old(files), files, old(nextId), id, dataset, uri, content, filename, skip, found)
    {
      var duplicateOf := if skip then found else None;
      id := CreateFile(dataset, uri, content, filename, duplicateOf);
      if duplicateOf.Some? && found == Some(id) {
        ghost var first := files;
        assert Conflicts(first, id, dataset, uri, content);
        var again := CreateFile(dataset, uri, content, filename, None);
        assert Conflicts(first, again, dataset, uri, content);
        assert again == id;
      }
    }

    /** `_find_orphans`: in id order, writing nothing. */
    method FindOrphans() returns (orphans: seq<nat>)
      ensures forall id :: id in orphans <==> id in Orphans(files)
      ensures forall i, j :: 0 <= i < j < |orphans| ==> orphans[i] < orphans[j]
    {
      orphans := [];
      var rest := Orphans(files);
      while rest != {}
        invariant forall id :: id in Orphans(files) <==> id in orphans || id in rest
        invariant forall i, j :: 0 <= i < j < |orphans| ==> orphans[i] < orphans[j]
        invariant forall i, id :: 0 <= i < |orphans| && id in rest ==> orphans[i] < id
        decreases |rest|
      {
        var m := Smallest(rest);
        orphans := orphans + [m];
        rest := rest - {m};
      }
    }

    /** `_repair_orphans`, one transaction: no orphan is left, and no other row is touched. */
    method RepairOrphans()
      modifies this`files
      ensures files == Repaired(old(files)) && Orphans(files) == {}
      ensures forall id :: id in old(files) ==>
        files[id] == if id in Orphans(old(files))
          then old(files)[id].(duplicateOf := Some(Original(old(files), id)))
          else old(files)[id]
    {
      RepairLeavesNoOrphan(files);
      files := Repaired(files);
    }

    /** `main`; `arrivals` are rows other sessions commit between the repair and the
        re-verification. */
    method Repair(dryRun: bool, arrivals: Files) returns (exitCode: nat)
      modifies this`files
      ensures Orphans(old(files)) == {} || dryRun ==> exitCode == 0 && files == old(files)
      ensures Orphans(old(files)) != {} && !dryRun ==>
        && files == Repaired(old(files)) + arrivals
        && exitCode == if Orphans(files) == {} then 0 else 1
      ensures Orphans(old(files)) != {} && !dryRun && arrivals == map[] ==> exitCode == 0 && Orphans(files) == {}
    {
      var orphans := FindOrphans();
      if |orphans| == 0 {
        assert Orphans(files) == {};
        return 0;
      }
      assert orphans[0] in Orphans(files);
      if dryRun {
        return 0;
      }
      RepairOrphans();
      assert files + map[] == files;
      files := files + arrivals;
      var remaining := FindOrphans();
      if |remaining| > 0 {
        assert remaining[0] in Orphans(files);
        return 1;
      }
      assert Orphans(files) == {};
      return 0;
    }
  }

  /** A row has no pointer exactly when it is its group's original, and points down otherwise. */
  predicate RowSound(files: Files, k: nat)
    requires k in files
  {
    && (files[k].duplicateOf.None? <==> k == Original(files, k))
    && (files[k].duplicateOf.Some? ==> files[k].duplicateOf.value < k && files[k].duplicateOf.value in Group(files, k))
  }

  lemma SoundIsRowByRow(files: Files)
    ensures Sound(files) <==> forall k :: k in files ==> RowSound(files, k)
  {
    forall k | k in files ensures IsOrphan(files, k) <==> k != Original(files, k) && files[k].duplicateOf.None? {
      OrphanExactlyWhen(files, k);
    }
    if Sound(files) {
      forall k | k in files ensures RowSound(files, k) {
        NoOrphan(files, k);
      }
    }
    if forall k :: k in files ==> RowSound(files, k) {
      assert forall k :: k in files ==> !IsOrphan(files, k);
      assert Orphans(files) == {};
    }
  }

  lemma SmallestWithALarger(held: set<nat>, id: nat)
    requires id in held || forall x :: x in held ==> x < id
    ensures Smallest(held + {id}) == if held == {} then id else Smallest(held)
  {
    assert held == {} ==> held + {id} == {id};
  }

  /** What one registration does to the rows and to the groups. */
  ghost predicate Grown(before: Files, after: Files, id: nat) {
    && id in after && after.Keys == before.Keys + {id}
    && (forall k :: k in before && k != id ==> after[k] == before[k])
    && (id in before ==> SameContent(after[id], before[id]))
    && (id !in before ==> forall k :: k in before ==> k < id)
  }

  lemma RegistrationGrows(before: Files, after: Files, nextId: nat, id: nat, dataset: nat, uri: string,
                          content: string, filename: string, skip: bool, found: Option<nat>)
    requires Keyed(before, nextId)
    requires Registered(before, after, nextId, id, dataset, uri, content, filename, skip, found)
    ensures Grown(before, after, id) && after[id].dataset == dataset && after[id].content == content
    ensures after[id].duplicateOf == if skip && found != Some(id) then found else None
  {
  }

  lemma GroupsGrow(before: Files, after: Files, id: nat)
    requires Grown(before, after, id)
    ensures var held := Holding(before, after[id].dataset, after[id].content);
      && Holding(after, after[id].dataset, after[id].content) == held + {id}
      && (id in held || forall x :: x in held ==> x < id)
    ensures forall k :: k in before && k != id && !SameContent(after[k], after[id]) ==> Group(after, k) == Group(before, k)
  {
    var held := Holding(before, after[id].dataset, after[id].content);
    assert Holding(after, after[id].dataset, after[id].content) == held + {id};
    forall k | k in before && k != id && !SameContent(after[k], after[id]) ensures Group(after, k) == Group(before, k) {
    }
  }

  /** With the ordered lookup, registering under the skip policy keeps every lineage sound:
      no new orphan, whatever is discovered again and in whatever order. */
  lemma OrderedRegistrationKeepsLineage(before: Files, after: Files, nextId: nat, id: nat, dataset: nat, uri: string,
                                        content: string, filename: string, found: Option<nat>)
    requires Sound(before) && Keyed(before, nextId)
    requires MayFind(before, dataset, content, true, found)
    requires Registered(before, after, nextId, id, dataset, uri, content, filename, true, found)
    ensures Sound(after)
  {
    RegistrationGrows(before, after, nextId, id, dataset, uri, content, filename, true, found);
    GroupsGrow(before, after, id);
    SoundIsRowByRow(before);
    forall k | k in after ensures RowSound(after, k) {
      if k != id {
        OtherRowStaysSound(before, after, id, k);
      } else {
        NewRowIsSound(before, after, id, found);
      }
    }
    SoundIsRowByRow(after);
  }

  lemma OtherRowStaysSound(before: Files, after: Files, id: nat, k: nat)
    requires k in before && k != id && id in after && k in after && after[k] == before[k] && RowSound(before, k)
    requires var held := Holding(before, after[id].dataset, after[id].content);
      && Holding(after, after[id].dataset, after[id].content) == held + {id}
      && (id in held || forall x :: x in held ==> x < id)
    requires !SameContent(after[k], after[id]) ==> Group(after, k) == Group(before, k)
    ensures RowSound(after, k)
  {
    var held := Holding(before, after[id].dataset, after[id].content);
    if SameContent(after[k], after[id]) {
      SmallestWithALarger(held, id);
    }
  }

  lemma NewRowIsSound(before: Files, after: Files, id: nat, found: Option<nat>)
    requires id in after
    requires var held := Holding(before, after[id].dataset, after[id].content);
      && Holding(after, after[id].dataset, after[id].content) == held + {id}
      && (id in held || forall x :: x in held ==> x < id)
      && (found == if held == {} then None else Some(Smallest(held)))
    requires after[id].duplicateOf == if found != Some(id) then found else None
    ensures RowSound(after, id)
  {
    SmallestWithALarger(Holding(before, after[id].dataset, after[id].content), id);
  }

  /** Under another policy a registered row never gets a pointer, so it is one the repair
      would rewrite exactly when its content was already there under a smaller id. */
  lemma UnskippedRegistrationIsAnOrphanExactlyWhen(before: Files, after: Files, nextId: nat, id: nat, dataset: nat, uri: string,
                                                   content: string, filename: string, found: Option<nat>)
    requires Keyed(before, nextId)
    requires Registered(before, after, nextId, id, dataset, uri, content, filename, false, found)
    ensures IsOrphan(after, id) <==> exists k :: k in Holding(before, dataset, content) && k < id
  {
    RegistrationGrows(before, after, nextId, id, dataset, uri, content, filename, false, found);
    GroupsGrow(before, after, id);
    OrphanExactlyWhen(after, id);
    var held := Holding(before, dataset, content);
    if k :| k in held && k < id {
      assert k in Group(after, id);
    }
    if Original(after, id) != id {
      assert Original(after, id) in held;
    }
  }

  /** Under the skip policy a lookup that may return any holder of the content orphans the
      registered row exactly when it returns that row itself and an older one holds it too. */
  lemma RegisteredRowIsAnOrphanExactlyWhen(before: Files, after: Files, nextId: nat, id: nat, dataset: nat, uri: string,
                                           content: string, filename: string, found: Option<nat>)
    requires Keyed(before, nextId) && MayFind(before, dataset, content, false, found)
    requires Registered(before, after, nextId, id, dataset, uri, content, filename, true, found)
    ensures IsOrphan(after, id) <==> found == Some(id) && id != Smallest(Holding(before, dataset, content))
  {
    RegistrationGrows(before, after, nextId, id, dataset, uri, content, filename, true, found);
    GroupsGrow(before, after, id);
    OrphanExactlyWhen(after, id);
    SmallestWithALarger(Holding(before, dataset, content), id);
  }

  /** The lineage stays sound exactly when the lookup returns nothing, an older row than the
      registered one, or that row itself as the oldest: less than the ordering promises. */
  lemma RegistrationKeepsLineageExactlyWhen(before: Files, after: Files, nextId: nat, id: nat, dataset: nat, uri: string,
                                            content: string, filename: string, found: Option<nat>)
    requires Sound(before) && Keyed(before, nextId) && MayFind(before, dataset, content, false, found)
    requires Registered(before, after, nextId, id, dataset, uri, content, filename, true, found)
    ensures Sound(after) <==>
      found.None? || found.value < id || (found.value == id && id == Smallest(Holding(before, dataset, content)))
  {
    RegistrationGrows(before, after, nextId, id, dataset, uri, content, filename, true, found);
    GroupsGrow(before, after, id);
    SoundIsRowByRow(before);
    SoundIsRowByRow(after);
    forall k | k in after && k != id ensures RowSound(after, k) {
      OtherRowStaysSound(before, after, id, k);
    }
    SmallestWithALarger(Holding(before, dataset, content), id);
  }

  /** Without the ordering, finding a duplicate again through itself is enough to lose its
      pointer. */
  method UnorderedLookupOrphansARow() returns (t: FilesTable)
    ensures fresh(t) && Orphans(t.files) != {}
  {
    t := new FilesTable();
    var first := t.Register(0, "a", "x", "a", true, None);
    assert Holding(t.files, 0, "x") == {first};
    var second := t.Register(0, "b", "x", "b", true, Some(first));
    var again := t.Register(0, "b", "x", "b", true, Some(second));
    OrphanExactlyWhen(t.files, second);
    assert first in Group(t.files, second);
    assert second in Orphans(t.files);
  }
}
