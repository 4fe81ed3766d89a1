/** Extracting a bundle below a staging root.

    The disk is a map from locations to files and folders; the root is empty before, and a
    folder is made for every parent of a file. */
module BundleExtraction {
  import opened Sequences
  import opened PosixPaths
  import opened OutputEntries
  import opened NameOrder
  import opened Bundles

  /** The components of a path below the root. */
  type Location = seq<string>

  datatype Node = Folder | File(content: Bytes)

  type Disk = map<Location, Node>

  predicate ProperPrefix(a: Location, b: Location) { |a| < |b| && a == b[..|a|] }

  /** `target.parent.mkdir(parents=True, exist_ok=True)`: fails when a parent is a file. */
  method MakeParents(disk: Disk, target: Location) returns (r: Option<Disk>)
    ensures r.Some? <==> forall p :: p in disk && p != [] && ProperPrefix(p, target) ==> disk[p] == Folder
    ensures r.Some? ==> forall p :: p in r.value <==> p in disk || (p != [] && ProperPrefix(p, target))
    ensures r.Some? ==> forall p :: p in r.value ==> r.value[p] == if p in disk then disk[p] else Folder
  {
    var current := disk;
    var k := 1;
    while k < |target|
      invariant 1 <= k && (k > |target| ==> target == [])
      invariant forall p :: p in disk && p != [] && |p| < k && ProperPrefix(p, target) ==> disk[p] == Folder
      invariant forall p :: p in current <==> p in disk || (p != [] && |p| < k && ProperPrefix(p, target))
      invariant forall p :: p in current ==> current[p] == if p in disk then disk[p] else Folder
    {
      var parent := target[..k];
      if parent in current && current[parent] != Folder {
        return None;
      }
      current := current[parent := Folder];
      k := k + 1;
    }
    r := Some(current);
  }

  /** The disk holds these files, their parents and nothing else. */
  ghost predicate Layout(files: seq<(Location, Bytes)>, disk: Disk) {
    && (forall i :: 0 <= i < |files| ==> Stored(disk, files[i]))
    && (forall i :: 0 <= i < |files| ==> ParentsAreFolders(disk, files[i].0))
    && (forall p :: p in disk ==> Explained(files, p, disk[p]))
  }

  predicate Stored(disk: Disk, file: (Location, Bytes)) { file.0 in disk && disk[file.0] == File(file.1) }

  ghost predicate ParentsAreFolders(disk: Disk, target: Location) {
    forall p :: p != [] && ProperPrefix(p, target) ==> p in disk && disk[p] == Folder
  }

  /** A file is one of the files and a folder is a parent of one. */
  ghost predicate Explained(files: seq<(Location, Bytes)>, p: Location, node: Node) {
    if node.File? then exists i :: 0 <= i < |files| && files[i].0 == p
    else exists i :: 0 <= i < |files| && ProperPrefix(p, files[i].0)
  }

  /** No file is a directory of another one. */
  ghost predicate NoFileIsAFolder(files: seq<(Location, Bytes)>) {
    forall i, j :: 0 <= i < |files| && 0 <= j < |files| ==> !ProperPrefix(files[i].0, files[j].0)
  }

  /** Locations are not the root, and files at the same location have the same content. */
  ghost predicate Consistent(files: seq<(Location, Bytes)>) {
    && (forall i :: 0 <= i < |files| ==> files[i].0 != [])
    && forall i, j :: 0 <= i < j < |files| && files[i].0 == files[j].0 ==> files[i].1 == files[j].1
  }

  lemma ParentIsAFile(files: seq<(Location, Bytes)>, i: nat, disk: Disk)
    requires i < |files| && Layout(files[..i], disk)
    requires exists p :: p in disk && p != [] && ProperPrefix(p, files[i].0) && disk[p] != Folder
    ensures !NoFileIsAFolder(files)
  {
    var p :| p in disk && p != [] && ProperPrefix(p, files[i].0) && disk[p] != Folder;
    assert Explained(files[..i], p, disk[p]);
    var k :| 0 <= k < i && files[..i][k].0 == p;
    assert ProperPrefix(files[k].0, files[i].0);
  }

  lemma TargetIsAFolder(files: seq<(Location, Bytes)>, i: nat, disk: Disk)
    requires i < |files| && Layout(files[..i], disk) && files[i].0 in disk && disk[files[i].0] == Folder
    ensures !NoFileIsAFolder(files)
  {
    assert Explained(files[..i], files[i].0, Folder);
    var k :| 0 <= k < i && ProperPrefix(files[i].0, files[..i][k].0);
    assert ProperPrefix(files[i].0, files[k].0);
  }

  /** The parents of file i are there and its place is free or a file. */
  ghost predicate Prepared(files: seq<(Location, Bytes)>, i: nat, disk: Disk, parents: Disk)
    requires i < |files|
  {
    && (forall p :: p in disk && p != [] && ProperPrefix(p, files[i].0) ==> disk[p] == Folder)
    && (forall p :: p in parents <==> p in disk || (p != [] && ProperPrefix(p, files[i].0)))
    && (forall p :: p in parents ==> parents[p] == if p in disk then disk[p] else Folder)
    && !(files[i].0 in parents && parents[files[i].0] == Folder)
  }

  lemma ExplainedByMore(files: seq<(Location, Bytes)>, i: nat, p: Location, node: Node)
    requires i < |files| && Explained(files[..i], p, node)
    ensures Explained(files[..i + 1], p, node)
  {
    var before, after := files[..i], files[..i + 1];
    if node.File? {
      var k :| 0 <= k < i && before[k].0 == p;
      assert after[k].0 == p;
    } else {
      var k :| 0 <= k < i && ProperPrefix(p, before[k].0);
      assert ProperPrefix(p, after[k].0);
    }
  }

  lemma NoConflictAdded(files: seq<(Location, Bytes)>, i: nat, disk: Disk, parents: Disk)
    requires i < |files| && Layout(files[..i], disk) && NoFileIsAFolder(files[..i])
    requires Consistent(files) && Prepared(files, i, disk, parents)
    ensures NoFileIsAFolder(files[..i + 1])
  {
    var before, after := files[..i], files[..i + 1];
    forall j, k | 0 <= j < |after| && 0 <= k < |after| ensures !ProperPrefix(after[j].0, after[k].0) {
      if j < i {
        assert before[j] == files[j] && Stored(disk, before[j]);
        assert k < i ==> before[k] == files[k] && !ProperPrefix(before[j].0, before[k].0);
      } else if k < i {
        assert before[k] == files[k] && ParentsAreFolders(disk, before[k].0);
      }
    }
  }

  lemma OldFileStays(files: seq<(Location, Bytes)>, i: nat, disk: Disk, parents: Disk, k: nat)
    requires k < i < |files| && Layout(files[..i], disk)
    requires Consistent(files) && Prepared(files, i, disk, parents)
    ensures Stored(parents[files[i].0 := File(files[i].1)], files[k])
    ensures ParentsAreFolders(parents[files[i].0 := File(files[i].1)], files[k].0)
  {
    assert files[..i][k] == files[k];
    assert Stored(disk, files[k]) && ParentsAreFolders(disk, files[k].0);
  }

  lemma LayoutGrows(files: seq<(Location, Bytes)>, i: nat, disk: Disk, parents: Disk)
    requires i < |files| && Layout(files[..i], disk)
    requires Consistent(files) && Prepared(files, i, disk, parents)
    ensures Layout(files[..i + 1], parents[files[i].0 := File(files[i].1)])
  {
    var after, target := files[..i + 1], files[i].0;
    var next := parents[target := File(files[i].1)];
    forall k | 0 <= k < |after| ensures Stored(next, after[k]) && ParentsAreFolders(next, after[k].0) {
      if k < i { OldFileStays(files, i, disk, parents, k); }
    }
    forall p | p in next ensures Explained(after, p, next[p]) {
      if p == target || p !in disk {
        assert after[i].0 == target;
      } else {
        ExplainedByMore(files, i, p, disk[p]);
      }
    }
  }

  // ----- extraction ------------------------------------------------------------------------------

  function LocationOf(name: string): Location { Parse(name).components }

  function ContentOf(members: seq<Member>, name: string): Bytes {
    var found := LastNamed(members, name);
    if found.Some? then found.value.content else []
  }

  /** What extraction writes, in order. */
  function Plan(members: seq<Member>, names: seq<string>): (r: seq<(Location, Bytes)>)
    ensures |r| == |names|
  {
    seq(|names|, i requires 0 <= i < |names| => (LocationOf(names[i]), ContentOf(members, names[i])))
  }

  predicate Found(members: seq<Member>, name: string) { LastNamed(members, name).Some? }

  ghost predicate AllFound(members: seq<Member>, names: seq<string>) {
    forall i :: 0 <= i < |names| ==> Found(members, names[i])
  }

  lemma PlanIsConsistent(members: seq<Member>)
    requires AllAdmitted(members)
    ensures Consistent(Plan(members, NamesOf(members)))
  {
    var names := NamesOf(members);
    forall i | 0 <= i < |names| ensures Normal(names[i]) {
      ValidatedIsNormal(members[i].name);
    }
  }

  datatype Extraction = Extracted(disk: Disk) | Refused(error: Validation) | NoSuchMember | Conflict

  /** One member: its parents, its content, and the write. */
  method ExtractMember(
    members: seq<Member>, name: string, disk: Disk, ghost files: seq<(Location, Bytes)>, ghost i: nat)
    returns (r: Extraction)
    requires i < |files| && files[i] == (LocationOf(name), ContentOf(members, name))
    requires Consistent(files) && Layout(files[..i], disk) && NoFileIsAFolder(files[..i])
    ensures r.Extracted? ==> Layout(files[..i + 1], r.disk) && NoFileIsAFolder(files[..i + 1])
    ensures r.Extracted? ==> Found(members, name)
    ensures r.NoSuchMember? ==> !Found(members, name)
    ensures r.Conflict? ==> !NoFileIsAFolder(files)
    ensures !r.Refused?
  {
    var target := LocationOf(name);
    var parents := MakeParents(disk, target);
    if parents.None? {
      ParentIsAFile(files, i, disk);
      return Conflict;
    }
    var source := LastNamed(members, name);
    if source.None? { return NoSuchMember; }
    if target in parents.value && parents.value[target] == Folder {
      TargetIsAFolder(files, i, disk);
      return Conflict;
    }
    NoConflictAdded(files, i, disk, parents.value);
    LayoutGrows(files, i, disk, parents.value);
    r := Extracted(parents.value[target := File(source.value.content)]);
  }

  lemma NothingPlaced(files: seq<(Location, Bytes)>)
    ensures Layout(files[..0], map[]) && NoFileIsAFolder(files[..0])
  {
  }

  method ExtractMembers(members: seq<Member>, names: seq<string>) returns (r: Extraction)
    requires Consistent(Plan(members, names))
    ensures !r.Refused?
    ensures r.Extracted? <==> AllFound(members, names) && NoFileIsAFolder(Plan(members, names))
    ensures r.Extracted? ==> Layout(Plan(members, names), r.disk)
  {
    hide Layout, NoFileIsAFolder, Consistent, Found, LocationOf, ContentOf;
    ghost var files := Plan(members, names);
    var disk: Disk := map[];
    NothingPlaced(files);
    for i := 0 to |names|
      invariant forall k :: 0 <= k < i ==> Found(members, names[k])
      invariant NoFileIsAFolder(files[..i])
      invariant Layout(files[..i], disk)
    {
      var step := ExtractMember(members, names[i], disk, files, i);
      if !step.Extracted? { return step; }
      disk := step.disk;
    }
    assert files[..|files|] == files;
    r := Extracted(disk);
  }

  /** `extract_bundle` below an empty root. */
  method ExtractBundle(archive: Archive) returns (r: Extraction)
    ensures r.Refused? <==>
      !(archive.size <= MAXIMUM_BYTES && archive.members != [] && AllAdmitted(archive.members))
    ensures r == Refused(TooLarge) <==> archive.size > MAXIMUM_BYTES
    ensures !r.Refused? ==>
      var names := NamesOf(archive.members);
      && (r.Extracted? <==> AllFound(archive.members, names) && NoFileIsAFolder(Plan(archive.members, names)))
      && (r.Extracted? ==> Layout(Plan(archive.members, names), r.disk))
  {
    var validation := ValidateBundle(archive, MAXIMUM_BYTES);
    if !validation.Valid? { return Refused(validation); }
    PlanIsConsistent(archive.members);
    r := ExtractMembers(archive.members, validation.names);
  }

  // ----- building and extracting -------------------------------------------------------------------

  /** The items by location. */
  function Located(files: Files): (r: seq<(Location, Bytes)>)
    ensures |r| == |files|
  {
    seq(|files|, i requires 0 <= i < |files| => (LocationOf(files[i].0), files[i].1))
  }

  lemma PlanOfBuilt(sorted: Files)
    requires AllNormal(sorted) && AllSafe(sorted) && DistinctNames(sorted) && AllAdmitted(MembersOf(sorted))
    ensures Plan(MembersOf(sorted), NamesOf(MembersOf(sorted))) == Located(sorted)
    ensures AllFound(MembersOf(sorted), NamesOf(MembersOf(sorted)))
  {
    var members := MembersOf(sorted);
    forall j, k | 0 <= j < k < |members| ensures members[j].name != members[k].name {
      assert Normal(sorted[j].0) && Normal(sorted[k].0);
    }
    forall i | 0 <= i < |sorted|
      ensures NamesOf(members)[i] == sorted[i].0 && LastNamed(members, sorted[i].0) == Some(members[i])
    {
      assert Normal(sorted[i].0);
      LastOfDistinct(members, i);
    }
  }

  lemma LocatedMembers(a: Files, b: Files, file: (Location, Bytes))
    requires multiset(a) == multiset(b) && file in Located(a)
    ensures file in Located(b)
  {
    var i :| 0 <= i < |a| && Located(a)[i] == file;
    assert a[i] in multiset(b);
    var k :| 0 <= k < |b| && b[k] == a[i];
    assert Located(b)[k] == file;
  }

  ghost predicate SameFiles(x: seq<(Location, Bytes)>, y: seq<(Location, Bytes)>) {
    forall file :: file in x <==> file in y
  }

  lemma NoFileIsAFolderOfSame(x: seq<(Location, Bytes)>, y: seq<(Location, Bytes)>)
    requires SameFiles(x, y) && NoFileIsAFolder(x)
    ensures NoFileIsAFolder(y)
  {
    forall i, j | 0 <= i < |y| && 0 <= j < |y| ensures !ProperPrefix(y[i].0, y[j].0) {
      assert y[i] in x && y[j] in x;
    }
  }

  lemma LayoutOfSame(x: seq<(Location, Bytes)>, y: seq<(Location, Bytes)>, disk: Disk)
    requires SameFiles(x, y) && Layout(x, disk)
    ensures Layout(y, disk)
  {
    forall i | 0 <= i < |y| ensures Stored(disk, y[i]) && ParentsAreFolders(disk, y[i].0) {
      assert y[i] in x;
    }
    forall p | p in disk ensures Explained(y, p, disk[p]) {
      assert Explained(x, p, disk[p]);
      var i :| 0 <= i < |x| && (if disk[p].File? then x[i].0 == p else ProperPrefix(p, x[i].0));
      assert x[i] in y;
      var k :| 0 <= k < |y| && y[k] == x[i];
    }
  }

  lemma LocatedInAnyOrder(a: Files, b: Files)
    requires multiset(a) == multiset(b)
    ensures SameFiles(Located(a), Located(b))
  {
    forall file
      ensures file in Located(a) <==> file in Located(b)
    {
      if file in Located(a) { LocatedMembers(a, b, file); }
      if file in Located(b) { LocatedMembers(b, a, file); }
    }
  }

  /** Building and extracting puts exactly the original files at their places, unless one
      name is a directory of another: then extraction fails. */
  method BuildAndExtract(files: Files) returns (r: Extraction)
    requires DistinctNames(files) && files != [] && AllNormal(files)
    ensures AllSafe(SortedItems(files))
    ensures EncodedSize(MembersOf(SortedItems(files))) > MAXIMUM_BYTES <==> r == Refused(TooLarge)
    ensures EncodedSize(MembersOf(SortedItems(files))) <= MAXIMUM_BYTES ==>
      (r.Extracted? <==> NoFileIsAFolder(Located(files)))
    ensures r.Extracted? ==> Layout(Located(files), r.disk)
  {
    ghost var sorted := SortedItems(files);
    SortedItemsAscend(files);
    NormalInAnyOrder(files, sorted);
    DistinctInAnyOrder(files, sorted);
    var built := BuildDeterministicBundle(files);
    BuiltIsAdmitted(sorted);
    PlanOfBuilt(sorted);
    LocatedInAnyOrder(sorted, files);
    r := ExtractBundle(built.archive);
    if NoFileIsAFolder(Located(files)) { NoFileIsAFolderOfSame(Located(files), Located(sorted)); }
    if r.Extracted? {
      NoFileIsAFolderOfSame(Located(sorted), Located(files));
      LayoutOfSame(Located(sorted), Located(files), r.disk);
    }
  }

  /** The names "a" and "a/b" are normal and distinct, but cannot be extracted together. */
  lemma FileAndFolderConflict(x: Bytes, y: Bytes)
    ensures var files: Files := [("a", x), ("a/b", y)];
            DistinctNames(files) && AllNormal(files) && !NoFileIsAFolder(Located(files))
  {
    var files: Files := [("a", x), ("a/b", y)];
    PlainNames();
    var located := Located(files);
    assert located[0].0 == ["a"] && located[1].0 == ["a", "b"];
    assert ["a", "b"][..1] == ["a"];
    assert ProperPrefix(located[0].0, located[1].0);
    assert forall i :: 0 <= i < 2 ==> Normal(files[i].0);
  }

  lemma PlainNames()
    ensures LocationOf("a") == ["a"] && LocationOf("a/b") == ["a", "b"]
    ensures Normal("a") && Normal("a/b") && "a" != "a/b"
  {
    SmallPaths();
    assert |"a"| == 1 && |"a/b"| == 3 && "a"[0] == 'a' && "a/b"[0] == 'a';
    assert |".."| == 2 && |"b"| == 1 && "" + "a/b" == "a/b" && "" + "a" == "a";
    assert Parse("a") == Path("", ["a"]) && Parse("a/b") == Path("", ["a", "b"]);
  }
}
