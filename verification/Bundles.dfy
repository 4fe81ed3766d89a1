/** Deterministic source bundles: building, validating and reading them back. */
module Bundles {
  import opened Sequences
  import opened PosixPaths
  import opened OutputEntries
  import opened NameOrder

  /** `_validated_name`: the normal form of a safe relative path. */
  function ValidatedName(name: string): Option<string> {
    var path := Parse(name);
    if path.root != "" || ".." in path.components || path.components == [] then None
    else Some(AsPosix(path))
  }

  predicate Normal(name: string) { ValidatedName(name) == Some(name) }

  /** Validating is idempotent: what it returns is in normal form. */
  lemma ValidatedIsNormal(name: string)
    requires ValidatedName(name).Some?
    ensures Normal(ValidatedName(name).value)
  {
    ComponentsArePlain(name, []);
    ParseOfNormalized(Parse(name));
  }

  datatype Member = Member(name: string, kind: Kind, content: Bytes)

  /** A tar archive: its encoded size and its members in order. */
  datatype Archive = Archive(size: nat, members: seq<Member>)

  function RoundedUp(n: nat, block: nat): (r: nat)
    requires block > 0
    ensures n <= r < n + block
  {
    RoundsUp(n, block);
    (n + block - 1) / block * block
  }

  lemma RoundsUp(n: nat, block: nat)
    requires block > 0
    ensures n <= (n + block - 1) / block * block < n + block
  {
    var m := n + block - 1;
    assert m == m / block * block + m % block;
  }

  lemma WholeBlocks(n: nat)
    ensures RoundedUp(n, 512) % 512 == 0
  {
    Multiples((n + 511) / 512);
  }

  lemma WholeRecords(n: nat)
    ensures RoundedUp(n, 10240) % 10240 == 0
  {
    Multiples((n + 10239) / 10240);
  }

  lemma Multiples(k: nat)
    ensures (k * 512) % 512 == 0 && (k * 10240) % 10240 == 0
  {
  }

  function MembersSize(members: seq<Member>): nat {
    if members == [] then 0
    else MembersSize(members[..|members| - 1]) + 512 + RoundedUp(|members[|members| - 1].content|, 512)
  }

  /** A header block and whole content blocks for each member, two closing blocks, and
      padding to whole records. */
  function EncodedSize(members: seq<Member>): nat { RoundedUp(MembersSize(members) + 1024, 10240) }

  function ContentSize(members: seq<Member>): nat {
    if members == [] then 0 else ContentSize(members[..|members| - 1]) + |members[|members| - 1].content|
  }

  lemma {:induction false} MembersSizeBounds(members: seq<Member>)
    ensures MembersSize(members) % 512 == 0
    ensures 0 <= MembersSize(members) - ContentSize(members) - 512 * |members| <= 511 * |members|
  {
    hide RoundedUp;
    if members != [] {
      MembersSizeBounds(members[..|members| - 1]);
      WholeBlocks(|members[|members| - 1].content|);
    }
  }

  /** An archive is a whole number of records of 10240 bytes, with room for its contents, a
      header of 512 bytes for each member and 1024 bytes at the end, and no record more than
      the padding of the contents to blocks of 512 bytes takes. */
  lemma EncodedSizeBounds(members: seq<Member>)
    ensures EncodedSize(members) % 10240 == 0
    ensures ContentSize(members) + 512 * |members| + 1024 <= EncodedSize(members)
    ensures EncodedSize(members) < ContentSize(members) + 1023 * |members| + 1024 + 10240
  {
    hide RoundedUp, MembersSize, ContentSize;
    MembersSizeBounds(members);
    WholeRecords(MembersSize(members) + 1024);
  }

  type Files = Items<Bytes>

  datatype BuildResult = Built(archive: Archive) | NothingToBuild | UnsafeName

  predicate AllSafe(files: Files) {
    forall i :: 0 <= i < |files| ==> ValidatedName(files[i].0).Some?
  }

  function MembersOf(files: Files): (r: seq<Member>)
    requires AllSafe(files)
  {
    seq(|files|, i requires 0 <= i < |files| =>
      Member(ValidatedName(files[i].0).value, RegularFile, files[i].1))
  }

  lemma MembersOfSnoc(files: Files, i: nat)
    requires i < |files| && AllSafe(files[..i]) && ValidatedName(files[i].0).Some?
    ensures AllSafe(files[..i + 1])
    ensures MembersOf(files[..i + 1])
            == MembersOf(files[..i]) + [Member(ValidatedName(files[i].0).value, RegularFile, files[i].1)]
  {
    TakeSnoc(files, i);
  }

  /** `build_deterministic_bundle` on the items of a mapping, in any enumeration. */
  method BuildDeterministicBundle(files: Files) returns (r: BuildResult)
    ensures r == NothingToBuild <==> files == []
    ensures r == UnsafeName <==> files != [] && !AllSafe(SortedItems(files))
    ensures r.Built? ==>
      var members := MembersOf(SortedItems(files));
      r.archive == Archive(EncodedSize(members), members)
  {
    if files == [] { return NothingToBuild; }
    var sorted := SortedItems(files);
    var members: seq<Member> := [];
    for i := 0 to |sorted|
      invariant AllSafe(sorted[..i])
      invariant members == MembersOf(sorted[..i])
    {
      var name := ValidatedName(sorted[i].0);
      if name.None? { return UnsafeName; }
      MembersOfSnoc(sorted, i);
      members := members + [Member(name.value, RegularFile, sorted[i].1)];
    }
    assert sorted[..|sorted|] == sorted;
    r := Built(Archive(EncodedSize(members), members));
  }

  lemma SafeInAnyOrder(files: Files, other: Files)
    requires multiset(files) == multiset(other) && AllSafe(files)
    ensures AllSafe(other)
  {
    forall i | 0 <= i < |other| ensures ValidatedName(other[i].0).Some? {
      assert other[i] in multiset(files);
    }
  }

  // ----- validating ---------------------------------------------------------------------------

  const MAXIMUM_BYTES: nat := 64 * 1024 * 1024

  datatype Validation = Valid(names: seq<string>) | TooLarge | UnsafeMember | NotRegular | NoMembers

  predicate Admitted(m: Member) { ValidatedName(m.name).Some? && m.kind == RegularFile }

  predicate AllAdmitted(members: seq<Member>) {
    forall i :: 0 <= i < |members| ==> Admitted(members[i])
  }

  function NamesOf(members: seq<Member>): (r: seq<string>)
    requires AllAdmitted(members)
  {
    seq(|members|, i requires 0 <= i < |members| => ValidatedName(members[i].name).value)
  }

  lemma NamesSnoc(members: seq<Member>, i: nat)
    requires i < |members| && AllAdmitted(members[..i]) && Admitted(members[i])
    ensures AllAdmitted(members[..i + 1])
    ensures NamesOf(members[..i + 1]) == NamesOf(members[..i]) + [ValidatedName(members[i].name).value]
  {
    TakeSnoc(members, i);
  }

  /** The first member that is not admitted. */
  ghost predicate FirstFault(members: seq<Member>, k: nat) {
    k < |members| && AllAdmitted(members[..k]) && !Admitted(members[k])
  }

  /** `validate_bundle`. */
  method ValidateBundle(archive: Archive, maximum: nat) returns (r: Validation)
    ensures r == TooLarge <==> archive.size > maximum
    ensures r == NoMembers <==> archive.size <= maximum && archive.members == []
    ensures r.Valid? <==> archive.size <= maximum && archive.members != [] && AllAdmitted(archive.members)
    ensures r.Valid? ==> r.names == NamesOf(archive.members)
    ensures r == UnsafeMember || r == NotRegular ==>
      exists k: nat :: FirstFault(archive.members, k)
        && (r == UnsafeMember <==> ValidatedName(archive.members[k].name).None?)
  {
    if archive.size > maximum { return TooLarge; }
    var names: seq<string> := [];
    for i := 0 to |archive.members|
      invariant AllAdmitted(archive.members[..i])
      invariant names == NamesOf(archive.members[..i])
    {
      var member := archive.members[i];
      var name := ValidatedName(member.name);
      assert !Admitted(member) ==> FirstFault(archive.members, i);
      if name.None? { return UnsafeMember; }
      if member.kind != RegularFile { return NotRegular; }
      NamesSnoc(archive.members, i);
      names := names + [name.value];
    }
    assert archive.members[..|archive.members|] == archive.members;
    if names == [] { return NoMembers; }
    r := Valid(names);
  }

  // ----- reading ---------------------------------------------------------------------------------

  /** `extractfile` by name: the last member of that name. */
  function LastNamed(members: seq<Member>, name: string): (r: Option<Member>)
    ensures r.Some? ==> r.value in members && r.value.name == name
    ensures r.None? ==> forall m :: m in members ==> m.name != name
  {
    if members == [] then None
    else
      var last := members[|members| - 1];
      if last.name == name then Some(last) else LastNamed(members[..|members| - 1], name)
  }

  function Prefixed(prefix: string, name: string): string { prefix + "/" + name }

  lemma PrefixedIsInjective(prefix: string, a: string, b: string)
    requires Prefixed(prefix, a) == Prefixed(prefix, b)
    ensures a == b
  {
    var n := |prefix| + 1;
    assert Prefixed(prefix, a)[n..] == a && Prefixed(prefix, b)[n..] == b;
  }

  datatype Reading = Copied(files: map<string, Bytes>) | Invalid(error: Validation) | MissingMember

  /** Every name in the list leads to its last member, and there is nothing else. */
  ghost predicate Reads(members: seq<Member>, names: seq<string>, prefix: string, files: map<string, Bytes>) {
    && (forall i :: 0 <= i < |names| ==>
          && Prefixed(prefix, names[i]) in files
          && LastNamed(members, names[i]).Some?
          && files[Prefixed(prefix, names[i])] == LastNamed(members, names[i]).value.content)
    && forall key :: key in files ==> exists i :: 0 <= i < |names| && key == Prefixed(prefix, names[i])
  }

  /** `_bundle_files`: a validated name that is no member's own name raises KeyError. */
  method BundleFiles(archive: Archive, prefix: string) returns (r: Reading)
    ensures r.Invalid? <==>
      !(archive.size <= MAXIMUM_BYTES && archive.members != [] && AllAdmitted(archive.members))
    ensures r == Invalid(TooLarge) <==> archive.size > MAXIMUM_BYTES
    ensures !r.Invalid? ==>
      (r.MissingMember? <==> exists n :: n in NamesOf(archive.members) && LastNamed(archive.members, n).None?)
    ensures r.Copied? ==> Reads(archive.members, NamesOf(archive.members), prefix, r.files)
  {
    var validation := ValidateBundle(archive, MAXIMUM_BYTES);
    if !validation.Valid? { return Invalid(validation); }
    var names := validation.names;
    var files: map<string, Bytes> := map[];
    for i := 0 to |names|
      invariant Reads(archive.members, names[..i], prefix, files)
    {
      var source := LastNamed(archive.members, names[i]);
      if source.None? {
        assert names[i] in names;
        return MissingMember;
      }
      ghost var before := files;
      files := files[Prefixed(prefix, names[i]) := source.value.content];
      ReadsOneMore(archive.members, names, i, prefix, before);
    }
    assert names[..|names|] == names;
    r := Copied(files);
  }

  lemma ReadsOneMore(members: seq<Member>, names: seq<string>, i: nat, prefix: string, files: map<string, Bytes>)
    requires i < |names| && Reads(members, names[..i], prefix, files) && LastNamed(members, names[i]).Some?
    ensures Reads(members, names[..i + 1], prefix,
                  files[Prefixed(prefix, names[i]) := LastNamed(members, names[i]).value.content])
  {
    var after := files[Prefixed(prefix, names[i]) := LastNamed(members, names[i]).value.content];
    forall k | 0 <= k < i + 1
      ensures Prefixed(prefix, names[k]) in after
      ensures LastNamed(members, names[k]).Some?
      ensures after[Prefixed(prefix, names[k])] == LastNamed(members, names[k]).value.content
    {
      assert k < i ==> names[..i][k] == names[k];
      if Prefixed(prefix, names[k]) == Prefixed(prefix, names[i]) {
        PrefixedIsInjective(prefix, names[k], names[i]);
      }
    }
    var more := names[..i + 1];
    forall key | key in after ensures exists k :: 0 <= k < |more| && key == Prefixed(prefix, more[k]) {
      if key in files {
        var k :| 0 <= k < i && key == Prefixed(prefix, names[..i][k]);
        assert key == Prefixed(prefix, more[k]);
      } else {
        assert key == Prefixed(prefix, more[i]);
      }
    }
  }

  // ----- building and reading back --------------------------------------------------------------

  /** The bundle depends on the mapping and not on the order in which it is enumerated. */
  method BuildInTwoOrders(a: Files, b: Files) returns (r: BuildResult, s: BuildResult)
    requires DistinctNames(a) && multiset(a) == multiset(b)
    ensures r == s
  {
    SortedItemsAreCanonical(a, b);
    PermutationSize(a, b);
    r := BuildDeterministicBundle(a);
    s := BuildDeterministicBundle(b);
  }

  /** The members of a bundle are admitted, with their own names; these are the sorted
      names when all names are normal. */
  lemma BuiltIsAdmitted(sorted: Files)
    requires AllSafe(sorted)
    ensures AllAdmitted(MembersOf(sorted))
    ensures |NamesOf(MembersOf(sorted))| == |sorted|
    ensures forall i :: 0 <= i < |sorted| ==> NamesOf(MembersOf(sorted))[i] == ValidatedName(sorted[i].0).value
    ensures forall i :: 0 <= i < |sorted| ==> MembersOf(sorted)[i].name == ValidatedName(sorted[i].0).value
  {
    forall i | 0 <= i < |sorted| ensures Normal(MembersOf(sorted)[i].name) {
      ValidatedIsNormal(sorted[i].0);
    }
  }

  lemma {:induction false} LastOfDistinct(members: seq<Member>, i: nat)
    requires i < |members| && forall j, k :: 0 <= j < k < |members| ==> members[j].name != members[k].name
    ensures LastNamed(members, members[i].name) == Some(members[i])
  {
    var n := |members| - 1;
    if i < n { LastOfDistinct(members[..n], i); }
  }

  /** The map holds every payload under its prefixed name, and nothing else. */
  ghost predicate IsFileMap(files: Files, prefix: string, m: map<string, Bytes>) {
    && (forall i :: 0 <= i < |files| ==>
          Prefixed(prefix, files[i].0) in m && m[Prefixed(prefix, files[i].0)] == files[i].1)
    && forall key :: key in m ==> exists i :: 0 <= i < |files| && key == Prefixed(prefix, files[i].0)
  }

  predicate AllNormal(files: Files) {
    forall i :: 0 <= i < |files| ==> Normal(files[i].0)
  }

  /** The map is what reading the bundle of these items returns. */
  ghost predicate ReadFrom(sorted: Files, prefix: string, m: map<string, Bytes>) {
    && AllSafe(sorted) && AllAdmitted(MembersOf(sorted))
    && Reads(MembersOf(sorted), NamesOf(MembersOf(sorted)), prefix, m)
  }

  lemma ReadAtName(sorted: Files, prefix: string, m: map<string, Bytes>, i: nat)
    requires ReadFrom(sorted, prefix, m) && DistinctNames(sorted) && AllNormal(sorted) && i < |sorted|
    ensures Prefixed(prefix, sorted[i].0) in m && m[Prefixed(prefix, sorted[i].0)] == sorted[i].1
  {
    var members := MembersOf(sorted);
    assert members[i] == Member(sorted[i].0, RegularFile, sorted[i].1);
    assert NamesOf(members)[i] == sorted[i].0;
    forall j, k | 0 <= j < k < |members| ensures members[j].name != members[k].name {
      assert Normal(sorted[j].0) && Normal(sorted[k].0);
    }
    LastOfDistinct(members, i);
  }

  lemma KeysOfReading(sorted: Files, prefix: string, m: map<string, Bytes>, key: string) returns (i: nat)
    requires ReadFrom(sorted, prefix, m) && key in m
    ensures i < |sorted| && key == Prefixed(prefix, ValidatedName(sorted[i].0).value)
  {
    var names := NamesOf(MembersOf(sorted));
    BuiltIsAdmitted(sorted);
    var k :| 0 <= k < |names| && key == Prefixed(prefix, names[k]);
    i := k;
  }

  lemma NormalNamesAreReadBack(sorted: Files, prefix: string, m: map<string, Bytes>)
    requires ReadFrom(sorted, prefix, m) && DistinctNames(sorted) && AllNormal(sorted)
    ensures IsFileMap(sorted, prefix, m)
  {
    forall i | 0 <= i < |sorted|
      ensures Prefixed(prefix, sorted[i].0) in m && m[Prefixed(prefix, sorted[i].0)] == sorted[i].1
    {
      ReadAtName(sorted, prefix, m, i);
    }
    forall key | key in m ensures exists i :: 0 <= i < |sorted| && key == Prefixed(prefix, sorted[i].0) {
      var i := KeysOfReading(sorted, prefix, m, key);
      assert Normal(sorted[i].0);
    }
  }

  lemma ReadBackNamesAreNormal(sorted: Files, prefix: string, m: map<string, Bytes>)
    requires ReadFrom(sorted, prefix, m) && IsFileMap(sorted, prefix, m)
    ensures AllNormal(sorted)
  {
    forall i | 0 <= i < |sorted| ensures Normal(sorted[i].0) {
      var k := KeysOfReading(sorted, prefix, m, Prefixed(prefix, sorted[i].0));
      PrefixedIsInjective(prefix, sorted[i].0, ValidatedName(sorted[k].0).value);
      ValidatedIsNormal(sorted[k].0);
    }
  }

  lemma FileMapInAnyOrder(a: Files, b: Files, prefix: string, m: map<string, Bytes>)
    requires multiset(a) == multiset(b) && IsFileMap(a, prefix, m)
    ensures IsFileMap(b, prefix, m)
  {
    forall i | 0 <= i < |b|
      ensures Prefixed(prefix, b[i].0) in m && m[Prefixed(prefix, b[i].0)] == b[i].1
    {
      assert b[i] in multiset(a);
    }
    forall key | key in m ensures exists i :: 0 <= i < |b| && key == Prefixed(prefix, b[i].0) {
      var i :| 0 <= i < |a| && key == Prefixed(prefix, a[i].0);
      assert a[i] in multiset(b);
    }
  }

  lemma NormalInAnyOrder(a: Files, b: Files)
    requires multiset(a) == multiset(b) && AllNormal(a)
    ensures AllNormal(b)
  {
    forall i | 0 <= i < |b| ensures Normal(b[i].0) { assert b[i] in multiset(a); }
  }

  /** Reading the bundle returns the original mapping exactly when its names are in normal
      form. */
  lemma RoundTrip(files: Files, prefix: string, m: map<string, Bytes>)
    requires DistinctNames(files) && ReadFrom(SortedItems(files), prefix, m)
    ensures IsFileMap(files, prefix, m) <==> AllNormal(files)
  {
    var sorted := SortedItems(files);
    SortedItemsAscend(files);
    if AllNormal(files) {
      NormalInAnyOrder(files, sorted);
      DistinctInAnyOrder(files, sorted);
      NormalNamesAreReadBack(sorted, prefix, m);
      FileMapInAnyOrder(sorted, files, prefix, m);
    }
    if IsFileMap(files, prefix, m) {
      FileMapInAnyOrder(files, sorted, prefix, m);
      ReadBackNamesAreNormal(sorted, prefix, m);
      NormalInAnyOrder(sorted, files);
    }
  }

  lemma DoubleSlash()
    ensures ValidatedName("a//b") == Some("a/b") && "a//b" != "a/b"
  {
    SmallPaths();
    assert |"a//b"| == 4 && |"a/b"| == 3 && "a//b"[0] == 'a';
    assert Parse("a//b") == Path("", ["a", "b"]);
    assert |".."| == 2 && |"a"| == 1 && |"b"| == 1 && "" + "a/b" == "a/b";
  }

  /** A mapping with the safe name "a//b" is not what reading its bundle returns. */
  lemma DoubleSlashIsNotReadBack(content: Bytes, prefix: string, m: map<string, Bytes>)
    requires ReadFrom(SortedItems([("a//b", content)]), prefix, m)
    ensures AllSafe([("a//b", content)]) && !IsFileMap([("a//b", content)], prefix, m)
  {
    DoubleSlash();
    var files: Files := [("a//b", content)];
    assert files[0].0 == "a//b";
    RoundTrip(files, prefix, m);
  }

  lemma BuiltHasNoMissingMember(sorted: Files, name: string)
    requires AllSafe(sorted) && AllAdmitted(MembersOf(sorted)) && name in NamesOf(MembersOf(sorted))
    ensures LastNamed(MembersOf(sorted), name).Some?
  {
    BuiltIsAdmitted(sorted);
    var i :| 0 <= i < |sorted| && NamesOf(MembersOf(sorted))[i] == name;
    assert MembersOf(sorted)[i] in MembersOf(sorted);
  }

  /** Builds a bundle and reads it back. */
  method BuildAndRead(files: Files, prefix: string) returns (r: Reading)
    requires DistinctNames(files) && files != [] && AllSafe(files)
    ensures AllSafe(SortedItems(files))
    ensures if EncodedSize(MembersOf(SortedItems(files))) <= MAXIMUM_BYTES then r.Copied? else r == Invalid(TooLarge)
    ensures r.Copied? ==> (IsFileMap(files, prefix, r.files) <==> AllNormal(files))
  {
    ghost var sorted := SortedItems(files);
    SortedItemsAscend(files);
    SafeInAnyOrder(files, sorted);
    BuiltIsAdmitted(sorted);
    var built := BuildDeterministicBundle(files);
    r := BundleFiles(built.archive, prefix);
    forall n | n in NamesOf(MembersOf(sorted)) ensures LastNamed(MembersOf(sorted), n).Some? {
      BuiltHasNoMissingMember(sorted, n);
    }
    if r.Copied? { RoundTrip(files, prefix, r.files); }
  }
}
