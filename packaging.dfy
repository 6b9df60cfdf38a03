/** The `package` and `package_with_tests` tasks: `make_zip` walks the plugin
    source directory top-down with `os.walk`, writes the files that survive
    the exclusion policy into a zip archive, and prunes excluded
    subdirectories so that the walk never descends into them. */
module Packaging {
  import opened Wrappers
  import opened Seqs
  import opened Config
  import opened Exclusion
  import opened Filter

  /** A relative path, as its sequence of segments. */
  type Path = seq<string>

  /** A directory as `os.walk` lists it: its file names and its
      subdirectories, each in listing order. */
  datatype Tree = Tree(files: seq<string>, dirs: seq<Child>)

  datatype Child = Child(name: string, tree: Tree)

  /** One archive member: the file read from disk and the name stored. */
  datatype ArchiveEntry = ArchiveEntry(source: Path, name: Path)

  function DirNames(cs: seq<Child>): (r: seq<string>)
    ensures |r| == |cs|
    ensures forall i :: 0 <= i < |cs| ==> r[i] == cs[i].name
  {
    if cs == [] then [] else DirNames(cs[..|cs| - 1]) + [cs[|cs| - 1].name]
  }

  /** The subdirectory that `os.walk` opens for a name left in `dirs`. */
  function Lookup(cs: seq<Child>, name: string): (r: Option<Child>)
    ensures r.Some? ==> r.value in cs && r.value.name == name
    ensures r.None? ==> name !in DirNames(cs)
  {
    if cs == [] then None
    else if cs[0].name == name then Some(cs[0])
    else
      var r := Lookup(cs[1..], name);
      assert DirNames(cs) == [cs[0].name] + DirNames(cs[1..]);
      r
  }

  /** `os.path.relpath(root, 'src')` for a relative path without `.` or `..`
      segments. */
  function RelToSrc(root: Path): (r: Path)
    ensures root != [] && root[0] == "src" ==> ["src"] + r == root
    ensures root == [] || root[0] != "src" ==> r == [".."] + root
  {
    if |root| > 0 && root[0] == "src" then root[1..] else [".."] + root
  }

  /** The member `zip.write(path(root) / f, path(relpath) / f)` adds. */
  function EntryFor(root: Path, f: string): (r: ArchiveEntry)
    ensures r.source == root + [f]
    ensures r.name != [] && r.name[|r.name| - 1] == f
    ensures root != [] && root[0] == "src" ==> ["src"] + r.name == r.source
  {
    ArchiveEntry(root + [f], RelToSrc(root) + [f])
  }

  /** The members written for the files `names` of directory `root`. */
  function FileEntries(root: Path, names: seq<string>): seq<ArchiveEntry>
    decreases |names|
  {
    if names == [] then []
    else FileEntries(root, names[..|names| - 1]) + [EntryFor(root, names[|names| - 1])]
  }

  /** The archive that `make_zip` writes for the directory `t` found at
      `root`: its surviving files, then, for each surviving subdirectory
      name in order, the archive of that subdirectory. */
  function ArchiveOf(pol: ExclusionPolicy, root: Path, t: Tree): seq<ArchiveEntry>
    decreases t, 1
  {
    FileEntries(root, Kept(pol, t.files)) + SubArchives(pol, root, t, Kept(pol, DirNames(t.dirs)))
  }

  /** The archives of the subdirectories of `t` named by `names`, in order. */
  function SubArchives(pol: ExclusionPolicy, root: Path, t: Tree, names: seq<string>): seq<ArchiveEntry>
    decreases t, 0, |names|
  {
    if names == [] then []
    else
      var n := names[|names| - 1];
      SubArchives(pol, root, t, names[..|names| - 1]) +
      match Lookup(t.dirs, n)
      case None => []
      case Some(c) => ArchiveOf(pol, root + [n], c.tree)
  }

  /** The zip file being written: the members added so far, in order. */
  class ZipSink {
    var entries: seq<ArchiveEntry>

    constructor ()
      ensures entries == []
    {
      entries := [];
    }

    /** `zip.write(source, name)`. */
    method Write(source: Path, name: Path)
      modifies this
      ensures entries == old(entries) + [ArchiveEntry(source, name)]
    {
      entries := entries + [ArchiveEntry(source, name)];
    }
  }

  lemma FileEntriesStep(root: Path, names: seq<string>, k: nat)
    requires k < |names|
    ensures FileEntries(root, names[..k + 1]) == FileEntries(root, names[..k]) + [EntryFor(root, names[k])]
  {
    assert names[..k + 1][..k] == names[..k];
  }

  lemma SubArchivesStep(pol: ExclusionPolicy, root: Path, t: Tree, names: seq<string>, i: nat)
    requires i < |names|
    ensures SubArchives(pol, root, t, names[..i + 1]) == SubArchives(pol, root, t, names[..i]) +
      match Lookup(t.dirs, names[i])
      case None => []
      case Some(c) => ArchiveOf(pol, root + [names[i]], c.tree)
  {
    assert names[..i + 1][..i] == names[..i];
  }

  /** `for f in ...: zip.write(path(root) / f, path(relpath) / f)`: write
      the surviving files of directory `root`, in order. */
  method WriteFiles(zip: ZipSink, root: Path, kept: seq<string>)
    modifies zip
    ensures zip.entries == old(zip.entries) + FileEntries(root, kept)
  {
    for k := 0 to |kept|
      invariant zip.entries == old(zip.entries) + FileEntries(root, kept[..k])
    {
      var f := kept[k];
      var relpath := RelToSrc(root);
      zip.Write(root + [f], relpath + [f]);
      FileEntriesStep(root, kept, k);
      AppendAssoc(old(zip.entries), FileEntries(root, kept[..k]), [EntryFor(root, f)]);
    }
    assert kept[..|kept|] == kept;
  }

  /** The body of the `os.walk` loop of `make_zip` at directory `root`,
      followed by the walk's own descent into the subdirectories left in
      `dirs` once the loop body has pruned it. */
  method WalkDir(zip: ZipSink, pol: ExclusionPolicy, root: Path, t: Tree)
    modifies zip
    ensures zip.entries == old(zip.entries) + ArchiveOf(pol, root, t)
    decreases t, 1
  {
    ghost var start := zip.entries;
    var files := new NameList(t.files);
    var kept := FilterExcludes(pol, files);
    WriteFiles(zip, root, kept);
    var dirs := new NameList(DirNames(t.dirs));
    var _ := FilterExcludes(pol, dirs);
    WalkSubdirs(zip, pol, root, t, dirs.items);
    AppendAssoc(start, FileEntries(root, kept), SubArchives(pol, root, t, dirs.items));
  }

  /** `os.walk` descending, in order, into each subdirectory whose name is
      left in the pruned `dirs` list. */
  method WalkSubdirs(zip: ZipSink, pol: ExclusionPolicy, root: Path, t: Tree, names: seq<string>)
    modifies zip
    ensures zip.entries == old(zip.entries) + SubArchives(pol, root, t, names)
    decreases t, 0
  {
    for i := 0 to |names|
      invariant zip.entries == old(zip.entries) + SubArchives(pol, root, t, names[..i])
    {
      var n := names[i];
      SubArchivesStep(pol, root, t, names, i);
      match Lookup(t.dirs, n)
      case Some(c) =>
        WalkDir(zip, pol, root + [n], c.tree);
        AppendAssoc(old(zip.entries), SubArchives(pol, root, t, names[..i]), ArchiveOf(pol, root + [n], c.tree));
      case None =>
    }
    assert names[..|names|] == names;
  }

  /** `make_zip(zip, options, basefilters)`. `fs` is what the file system
      holds at the source directory; `os.walk` yields nothing for a missing
      directory, so nothing is written then. */
  method MakeZip(zip: ZipSink, opts: PluginOptions, basefilters: bool, fs: Option<Tree>)
    modifies zip
    ensures zip.entries == old(zip.entries) +
      match fs
      case None => []
      case Some(t) => ArchiveOf(PolicyFor(opts, basefilters), opts.sourceDir, t)
  {
    var pol := PolicyFor(opts, basefilters);
    match fs
    case Some(t) =>
      WalkDir(zip, pol, opts.sourceDir, t);
    case None =>
  }

  /** The archive file both packaging tasks write: `<name>.zip` in the
      package directory. */
  function PackageFile(opts: PluginOptions): (r: Path)
    ensures |r| == |opts.packageDir| + 1
    ensures r[..|opts.packageDir|] == opts.packageDir
    ensures StartsWith(r[|r| - 1], opts.name) && EndsWith(r[|r| - 1], ".zip")
  {
    opts.packageDir + [opts.name + ".zip"]
  }

  /** `package`: a release archive built with the full exclusion list. */
  method Package(opts: PluginOptions, fs: Option<Tree>) returns (packageFile: Path, zip: ZipSink)
    ensures fresh(zip)
    ensures packageFile == PackageFile(opts)
    ensures zip.entries ==
      match fs
      case None => []
      case Some(t) => ArchiveOf(PolicyFor(opts, false), opts.sourceDir, t)
  {
    packageFile := PackageFile(opts);
    zip := new ZipSink();
    MakeZip(zip, opts, false, fs);
  }

  /** `package_with_tests`: the same archive built with the base list only. */
  method PackageWithTests(opts: PluginOptions, fs: Option<Tree>) returns (packageFile: Path, zip: ZipSink)
    ensures fresh(zip)
    ensures packageFile == PackageFile(opts)
    ensures zip.entries ==
      match fs
      case None => []
      case Some(t) => ArchiveOf(PolicyFor(opts, true), opts.sourceDir, t)
  {
    packageFile := PackageFile(opts);
    zip := new ZipSink();
    MakeZip(zip, opts, true, fs);
  }

  /** `f` is a file of `t` at the subdirectory path `sub` below `t`. */
  ghost predicate FileIn(t: Tree, sub: Path, f: string)
    decreases sub
  {
    if sub == [] then f in t.files
    else exists c :: c in t.dirs && c.name == sub[0] && FileIn(c.tree, sub[1..], f)
  }

  /** No segment of `segs` is removed by `pol`. */
  ghost predicate NoneDropped(pol: ExclusionPolicy, segs: seq<string>) {
    forall k :: 0 <= k < |segs| ==> !pol.Drops(segs[k])
  }

  /** Names are unique within each directory, as on a file system. */
  ghost predicate WellFormed(t: Tree)
    decreases t
  {
    (forall i, j :: 0 <= i < j < |t.dirs| ==> t.dirs[i].name != t.dirs[j].name) &&
    (forall c :: c in t.dirs ==> WellFormed(c.tree))
  }

  lemma {:induction false} FileEntriesSound(root: Path, names: seq<string>, e: ArchiveEntry) returns (f: string)
    requires e in FileEntries(root, names)
    ensures f in names && e == EntryFor(root, f)
    decreases |names|
  {
    var prev := names[..|names| - 1];
    if e in FileEntries(root, prev) {
      f := FileEntriesSound(root, prev, e);
    } else {
      f := names[|names| - 1];
    }
  }

  lemma {:induction false} FileEntriesComplete(root: Path, names: seq<string>, f: string)
    requires f in names
    ensures EntryFor(root, f) in FileEntries(root, names)
    decreases |names|
  {
    var prev := names[..|names| - 1];
    if f != names[|names| - 1] {
      assert names == prev + [names[|names| - 1]];
      FileEntriesComplete(root, prev, f);
    }
  }

  /** Every member of the archive is a file of the tree every one of whose
      path segments below the source directory, its own name included,
      survived the policy; its stored name is the relative path of its
      directory joined with its file name. */
  lemma {:induction false} ArchiveSound(pol: ExclusionPolicy, root: Path, t: Tree, e: ArchiveEntry)
    returns (sub: Path, f: string)
    requires e in ArchiveOf(pol, root, t)
    ensures FileIn(t, sub, f) && NoneDropped(pol, sub + [f])
    ensures e == EntryFor(root + sub, f)
    decreases t, 1
  {
    var names := Kept(pol, DirNames(t.dirs));
    if e in FileEntries(root, Kept(pol, t.files)) {
      f := FileEntriesSound(root, Kept(pol, t.files), e);
      KeptMembership(pol, t.files, f);
      sub := [];
      assert root + sub == root;
      assert sub + [f] == [f];
    } else {
      forall n | n in names
        ensures !pol.Drops(n)
      {
        KeptMembership(pol, DirNames(t.dirs), n);
      }
      sub, f := SubArchivesSound(pol, root, t, names, e);
    }
  }

  lemma {:induction false} SubArchivesSound(pol: ExclusionPolicy, root: Path, t: Tree, names: seq<string>, e: ArchiveEntry)
    returns (sub: Path, f: string)
    requires e in SubArchives(pol, root, t, names)
    requires forall n :: n in names ==> !pol.Drops(n)
    ensures FileIn(t, sub, f) && NoneDropped(pol, sub + [f])
    ensures e == EntryFor(root + sub, f)
    decreases t, 0, |names|
  {
    var n, prev := names[|names| - 1], names[..|names| - 1];
    if e in SubArchives(pol, root, t, prev) {
      sub, f := SubArchivesSound(pol, root, t, prev, e);
    } else {
      var c := Lookup(t.dirs, n).value;
      var rest;
      rest, f := ArchiveSound(pol, root + [n], c.tree, e);
      sub := [n] + rest;
      SubdirFileSound(pol, root, t, c, rest, f);
    }
  }

  /** A surviving file of a surviving subdirectory is a surviving file of the
      parent, one segment further down. */
  lemma SubdirFileSound(pol: ExclusionPolicy, root: Path, t: Tree, c: Child, rest: Path, f: string)
    requires c in t.dirs && !pol.Drops(c.name)
    requires FileIn(c.tree, rest, f) && NoneDropped(pol, rest + [f])
    ensures FileIn(t, [c.name] + rest, f) && NoneDropped(pol, [c.name] + rest + [f])
    ensures root + [c.name] + rest == root + ([c.name] + rest)
  {
    var sub := [c.name] + rest;
    assert sub[0] == c.name && sub[1..] == rest;
    forall k | 0 <= k < |sub + [f]|
      ensures !pol.Drops((sub + [f])[k])
    {
      if k > 0 {
        assert (sub + [f])[k] == (rest + [f])[k - 1];
      }
    }
  }

  lemma {:induction false} SubArchivesContains(pol: ExclusionPolicy, root: Path, t: Tree, names: seq<string>,
                                               n: string, c: Child, e: ArchiveEntry)
    requires n in names && Lookup(t.dirs, n) == Some(c)
    requires e in ArchiveOf(pol, root + [n], c.tree)
    ensures e in SubArchives(pol, root, t, names)
    decreases |names|
  {
    var prev := names[..|names| - 1];
    if names[|names| - 1] != n {
      assert names == prev + [names[|names| - 1]];
      SubArchivesContains(pol, root, t, prev, n, c, e);
    }
  }

  lemma {:induction false} LookupDistinct(cs: seq<Child>, i: nat)
    requires i < |cs|
    requires forall a, b :: 0 <= a < b < |cs| ==> cs[a].name != cs[b].name
    ensures Lookup(cs, cs[i].name) == Some(cs[i])
    decreases i
  {
    if i > 0 {
      LookupDistinct(cs[1..], i - 1);
      assert cs[1..][i - 1] == cs[i];
      assert cs[0].name != cs[i].name;
    }
  }

  /** A path with no dropped segment: its first segment survives, and so
      does every segment of the rest. */
  lemma NoneDroppedSplit(pol: ExclusionPolicy, sub: Path, f: string)
    requires sub != [] && NoneDropped(pol, sub + [f])
    ensures !pol.Drops(sub[0]) && NoneDropped(pol, sub[1..] + [f])
  {
    assert (sub + [f])[0] == sub[0];
    forall k | 0 <= k < |sub[1..] + [f]|
      ensures !pol.Drops((sub[1..] + [f])[k])
    {
      assert (sub[1..] + [f])[k] == (sub + [f])[k + 1];
    }
  }

  /** Among distinct names, the archive of a subdirectory that survives the
      policy is part of its parent's archive. */
  lemma SubdirInArchive(pol: ExclusionPolicy, root: Path, t: Tree, i: nat, e: ArchiveEntry)
    requires i < |t.dirs|
    requires forall a, b :: 0 <= a < b < |t.dirs| ==> t.dirs[a].name != t.dirs[b].name
    requires !pol.Drops(t.dirs[i].name)
    requires e in ArchiveOf(pol, root + [t.dirs[i].name], t.dirs[i].tree)
    ensures e in ArchiveOf(pol, root, t)
  {
    var c := t.dirs[i];
    LookupDistinct(t.dirs, i);
    assert DirNames(t.dirs)[i] == c.name;
    KeptMembership(pol, DirNames(t.dirs), c.name);
    SubArchivesContains(pol, root, t, Kept(pol, DirNames(t.dirs)), c.name, c, e);
  }

  /** Every file of a well-formed tree whose path segments all survive the
      policy is written to the archive under its relative name. */
  lemma {:induction false} ArchiveComplete(pol: ExclusionPolicy, root: Path, t: Tree, sub: Path, f: string)
    requires WellFormed(t)
    requires FileIn(t, sub, f) && NoneDropped(pol, sub + [f])
    ensures EntryFor(root + sub, f) in ArchiveOf(pol, root, t)
    decreases sub
  {
    if sub == [] {
      assert (sub + [f])[0] == f;
      KeptMembership(pol, t.files, f);
      FileEntriesComplete(root, Kept(pol, t.files), f);
      assert root + sub == root;
    } else {
      var n, rest := sub[0], sub[1..];
      var c :| c in t.dirs && c.name == n && FileIn(c.tree, rest, f);
      var i :| 0 <= i < |t.dirs| && t.dirs[i] == c;
      NoneDroppedSplit(pol, sub, f);
      ArchiveComplete(pol, root + [n], c.tree, rest, f);
      SubdirEntryInArchive(pol, root, t, i, sub, f);
    }
  }

  /** The step of `ArchiveComplete` from a subdirectory to its parent. */
  lemma SubdirEntryInArchive(pol: ExclusionPolicy, root: Path, t: Tree, i: nat, sub: Path, f: string)
    requires i < |t.dirs| && sub != [] && t.dirs[i].name == sub[0]
    requires forall a, b :: 0 <= a < b < |t.dirs| ==> t.dirs[a].name != t.dirs[b].name
    requires !pol.Drops(sub[0])
    requires EntryFor(root + [sub[0]] + sub[1..], f) in ArchiveOf(pol, root + [sub[0]], t.dirs[i].tree)
    ensures EntryFor(root + sub, f) in ArchiveOf(pol, root, t)
  {
    assert root + [sub[0]] + sub[1..] == root + sub;
    SubdirInArchive(pol, root, t, i, EntryFor(root + sub, f));
  }

  /** No member of the archive has a path segment below the source
      directory that the policy removes, so a removed
      directory contributes nothing, not even a skip-listed file. Each
      member's name is its directory's path relative to `src` followed by
      its file name. */
  lemma ArchiveSegmentsSurvive(pol: ExclusionPolicy, root: Path, t: Tree, e: ArchiveEntry)
    requires e in ArchiveOf(pol, root, t)
    ensures |root| < |e.source| && e.source[..|root|] == root
    ensures forall k :: |root| <= k < |e.source| ==> !pol.Drops(e.source[k])
    ensures e.name == RelToSrc(e.source[..|e.source| - 1]) + [e.source[|e.source| - 1]]
  {
    var sub, f := ArchiveSound(pol, root, t, e);
    assert e.source == root + (sub + [f]);
    assert e.source[..|e.source| - 1] == root + sub;
    forall k | |root| <= k < |e.source|
      ensures !pol.Drops(e.source[k])
    {
      assert e.source[k] == (sub + [f])[k - |root|];
    }
  }

  lemma {:induction false} FileEntriesSubseq(root: Path, a: seq<string>, b: seq<string>)
    requires IsSubseq(a, b)
    ensures IsSubseq(FileEntries(root, a), FileEntries(root, b))
    decreases |b|
  {
    if a != [] {
      var a', b' := a[..|a| - 1], b[..|b| - 1];
      if a[|a| - 1] == b[|b| - 1] && IsSubseq(a', b') {
        FileEntriesSubseq(root, a', b');
        var x, y := FileEntries(root, a), FileEntries(root, b);
        assert x[..|x| - 1] == FileEntries(root, a');
        assert y[..|y| - 1] == FileEntries(root, b');
      } else {
        FileEntriesSubseq(root, a, b');
        SubseqExtend(FileEntries(root, a), FileEntries(root, b'), [EntryFor(root, b[|b| - 1])]);
      }
    }
  }

  /** A policy that removes more entries writes a sub-archive, in the same
      order, of the one a policy removing fewer writes. */
  lemma {:induction false} ArchiveMonotone(stricter: ExclusionPolicy, looser: ExclusionPolicy, root: Path, t: Tree)
    requires forall n :: looser.Drops(n) ==> stricter.Drops(n)
    ensures IsSubseq(ArchiveOf(stricter, root, t), ArchiveOf(looser, root, t))
    decreases t, 1
  {
    KeptMonotone(stricter, looser, t.files);
    FileEntriesSubseq(root, Kept(stricter, t.files), Kept(looser, t.files));
    KeptMonotone(stricter, looser, DirNames(t.dirs));
    SubArchivesMonotone(stricter, looser, root, t, Kept(stricter, DirNames(t.dirs)), Kept(looser, DirNames(t.dirs)));
    SubseqConcat(FileEntries(root, Kept(stricter, t.files)), FileEntries(root, Kept(looser, t.files)),
                 SubArchives(stricter, root, t, Kept(stricter, DirNames(t.dirs))),
                 SubArchives(looser, root, t, Kept(looser, DirNames(t.dirs))));
  }

  lemma {:induction false} SubArchivesMonotone(stricter: ExclusionPolicy, looser: ExclusionPolicy, root: Path, t: Tree,
                                               a: seq<string>, b: seq<string>)
    requires forall n :: looser.Drops(n) ==> stricter.Drops(n)
    requires IsSubseq(a, b)
    ensures IsSubseq(SubArchives(stricter, root, t, a), SubArchives(looser, root, t, b))
    decreases t, 0, |b|
  {
    if a != [] {
      var a', b' := a[..|a| - 1], b[..|b| - 1];
      var n := b[|b| - 1];
      var tailB := match Lookup(t.dirs, n)
        case None => []
        case Some(c) => ArchiveOf(looser, root + [n], c.tree);
      if a[|a| - 1] == n && IsSubseq(a', b') {
        SubArchivesMonotone(stricter, looser, root, t, a', b');
        var tailA := match Lookup(t.dirs, n)
          case None => []
          case Some(c) => ArchiveOf(stricter, root + [n], c.tree);
        if Lookup(t.dirs, n).Some? {
          ArchiveMonotone(stricter, looser, root + [n], Lookup(t.dirs, n).value.tree);
        }
        SubseqConcat(SubArchives(stricter, root, t, a'), SubArchives(looser, root, t, b'), tailA, tailB);
      } else {
        SubArchivesMonotone(stricter, looser, root, t, a, b');
        SubseqExtend(SubArchives(stricter, root, t, a), SubArchives(looser, root, t, b'), tailB);
      }
    }
  }

  /** The release archive is the archive with tests minus some members,
      in the same order. */
  lemma PackageIsSubArchive(t: Tree)
    ensures IsSubseq(ArchiveOf(PackagePolicy(), DefaultOptions().sourceDir, t),
                     ArchiveOf(PackageWithTestsPolicy(), DefaultOptions().sourceDir, t))
  {
    forall n | PackageWithTestsPolicy().Drops(n)
      ensures PackagePolicy().Drops(n)
    {
      BaseDropsImplyFullDrops(n);
    }
    ArchiveMonotone(PackagePolicy(), PackageWithTestsPolicy(), DefaultOptions().sourceDir, t);
  }

  /** A sample plugin directory: two sources, a compiled
      file, the coverage schema and a test directory. */
  function SampleTree(): Tree {
    Tree(["a.py", "a.pyc", "coverage.xsd"], [Child("test", Tree(["t.py"], []))])
  }

  lemma ReleaseVerdicts()
    ensures !PackagePolicy().Drops("a.py") && PackagePolicy().Drops("a.pyc")
    ensures !PackagePolicy().Drops("coverage.xsd") && PackagePolicy().Drops("test")
    ensures !PackagePolicy().Drops("t.py")
  {
    assert "a.py"[|"a.py"| - 3..] == ".py" && "t.py"[|"t.py"| - 3..] == ".py";
    assert "a.py"[0] == 'a' && "t.py"[0] == 't';
    ReleaseKeepsSources("a.py");
    ReleaseKeepsSources("t.py");
    assert "a.pyc"[|"a.pyc"| - 4..] == ".pyc";
    ReleaseDropsCompiled("a.pyc");
    SkipAndTestVerdicts();
  }

  /** Both tasks keep a Python source unless its name starts with one of
      the excluded prefixes. */
  lemma ReleaseKeepsSources(name: string)
    requires EndsWith(name, ".py")
    requires !StartsWith(name, "gisdata") && !StartsWith(name, "coverage") && !StartsWith(name, "nose")
    ensures !PackagePolicy().Drops(name) && !PackageWithTestsPolicy().Drops(name)
  {
    FullPolicyDrops(name);
    BaseDropsImplyFullDrops(name);
    assert name[|name| - 1] == 'y';
    assert ".DS_Store"[|".DS_Store"| - 1] == 'e';
    assert "test"[3] == 't' && "test-output"[10] == 't' && "ext-src"[6] == 'c';
  }

  /** Both tasks drop every compiled Python file. */
  lemma ReleaseDropsCompiled(name: string)
    requires EndsWith(name, ".pyc")
    ensures PackagePolicy().Drops(name) && PackageWithTestsPolicy().Drops(name)
  {
    BasePolicyDrops(name);
    BaseDropsImplyFullDrops(name);
  }

  lemma TestsVerdicts()
    ensures !PackageWithTestsPolicy().Drops("a.py") && PackageWithTestsPolicy().Drops("a.pyc")
    ensures !PackageWithTestsPolicy().Drops("coverage.xsd") && !PackageWithTestsPolicy().Drops("test")
    ensures !PackageWithTestsPolicy().Drops("t.py")
  {
    BasePolicyDrops("a.py");
    assert "a.py"[..1] == "a";
    assert "a.py"[|"a.py"| - 4..] == "a.py";
    BasePolicyDrops("a.pyc");
    assert "a.pyc"[|"a.pyc"| - 4..] == ".pyc";
    SkipAndTestVerdicts();
    BasePolicyDrops("coverage.xsd");
    assert "coverage.xsd"[|"coverage.xsd"| - 4..] == ".xsd";
    assert "coverage.xsd"[..7] == "coverag";
    BasePolicyDrops("t.py");
    assert "t.py"[|"t.py"| - 4..] == "t.py";
  }

  lemma KeptSample(pol: ExclusionPolicy, x: string, y: string, z: string)
    requires !pol.Drops(x) && pol.Drops(y) && !pol.Drops(z)
    ensures Kept(pol, [x, y, z]) == [x, z]
  {
    assert [x, y, z][..2] == [x, y];
    assert [x, y][..1] == [x];
    assert [x][..0] == [];
    assert Kept(pol, [x]) == [x];
    assert Kept(pol, [x, y]) == [x];
    assert Kept(pol, [x, y, z]) == Kept(pol, [x, y]) + [z];
  }

  lemma KeptOne(pol: ExclusionPolicy, x: string)
    ensures Kept(pol, [x]) == if pol.Drops(x) then [] else [x]
  {
    assert [x][..0] == [];
  }

  lemma SampleTopFiles(pol: ExclusionPolicy)
    requires !pol.Drops("a.py") && pol.Drops("a.pyc") && !pol.Drops("coverage.xsd")
    ensures FileEntries(["src", "opengeo"], Kept(pol, SampleTree().files)) ==
      [ArchiveEntry(["src", "opengeo", "a.py"], ["opengeo", "a.py"]),
       ArchiveEntry(["src", "opengeo", "coverage.xsd"], ["opengeo", "coverage.xsd"])]
  {
    var root := ["src", "opengeo"];
    KeptSample(pol, "a.py", "a.pyc", "coverage.xsd");
    assert ["a.py", "coverage.xsd"][..1] == ["a.py"];
    assert ["a.py"][..0] == [];
    assert FileEntries(root, ["a.py"]) == [EntryFor(root, "a.py")];
    assert EntryFor(root, "a.py") == ArchiveEntry(["src", "opengeo", "a.py"], ["opengeo", "a.py"]);
    assert EntryFor(root, "coverage.xsd") == ArchiveEntry(["src", "opengeo", "coverage.xsd"], ["opengeo", "coverage.xsd"]);
  }

  /** A directory holding one kept file and nothing else archives that
      file alone. */
  lemma SingleFileArchive(pol: ExclusionPolicy, dir: Path, f: string)
    requires !pol.Drops(f)
    ensures ArchiveOf(pol, dir, Tree([f], [])) == [EntryFor(dir, f)]
  {
    KeptOne(pol, f);
    assert DirNames([]) == [];
    assert Kept(pol, []) == [];
    assert [f][..0] == [];
    assert FileEntries(dir, [f]) == [EntryFor(dir, f)];
  }

  /** Descending into one named subdirectory writes its whole archive. */
  lemma SubArchivesOne(pol: ExclusionPolicy, root: Path, t: Tree, d: string, c: Child)
    requires Lookup(t.dirs, d) == Some(c)
    ensures SubArchives(pol, root, t, [d]) == ArchiveOf(pol, root + [d], c.tree)
  {
    assert [d][..0] == [];
  }

  lemma SampleTestDir(pol: ExclusionPolicy)
    requires !pol.Drops("t.py")
    ensures SubArchives(pol, ["src", "opengeo"], SampleTree(), ["test"]) ==
      [ArchiveEntry(["src", "opengeo", "test", "t.py"], ["opengeo", "test", "t.py"])]
  {
    var dir: Path := ["src", "opengeo"] + ["test"];
    assert Lookup(SampleTree().dirs, "test") == Some(Child("test", Tree(["t.py"], [])));
    SubArchivesOne(pol, ["src", "opengeo"], SampleTree(), "test", Child("test", Tree(["t.py"], [])));
    SingleFileArchive(pol, dir, "t.py");
    assert dir == ["src", "opengeo", "test"];
    assert dir[1..] == ["opengeo", "test"];
    assert dir + ["t.py"] == ["src", "opengeo", "test", "t.py"];
    assert RelToSrc(dir) + ["t.py"] == ["opengeo", "test", "t.py"];
  }

  /** The archive of the example under any policy that decides its names as
      both packaging policies do, apart from the test directory. */
  lemma SampleArchive(pol: ExclusionPolicy)
    requires !pol.Drops("a.py") && pol.Drops("a.pyc") && !pol.Drops("coverage.xsd") && !pol.Drops("t.py")
    ensures ArchiveOf(pol, ["src", "opengeo"], SampleTree()) ==
      [ArchiveEntry(["src", "opengeo", "a.py"], ["opengeo", "a.py"]),
       ArchiveEntry(["src", "opengeo", "coverage.xsd"], ["opengeo", "coverage.xsd"])] +
      (if pol.Drops("test") then []
       else [ArchiveEntry(["src", "opengeo", "test", "t.py"], ["opengeo", "test", "t.py"])])
  {
    var t := SampleTree();
    SampleTopFiles(pol);
    assert DirNames(t.dirs) == ["test"];
    KeptOne(pol, "test");
    if !pol.Drops("test") {
      SampleTestDir(pol);
    }
  }

  /** `package` on the example keeps the source and the skip-listed schema
      and drops the compiled file and the whole test directory. */
  lemma ReleaseScenario()
    ensures ArchiveOf(PackagePolicy(), ["src", "opengeo"], SampleTree()) ==
      [ArchiveEntry(["src", "opengeo", "a.py"], ["opengeo", "a.py"]),
       ArchiveEntry(["src", "opengeo", "coverage.xsd"], ["opengeo", "coverage.xsd"])]
  {
    ReleaseVerdicts();
    SampleArchive(PackagePolicy());
  }

  /** `package_with_tests` on the example also keeps the test source. */
  lemma TestsScenario()
    ensures ArchiveOf(PackageWithTestsPolicy(), ["src", "opengeo"], SampleTree()) ==
      [ArchiveEntry(["src", "opengeo", "a.py"], ["opengeo", "a.py"]),
       ArchiveEntry(["src", "opengeo", "coverage.xsd"], ["opengeo", "coverage.xsd"]),
       ArchiveEntry(["src", "opengeo", "test", "t.py"], ["opengeo", "test", "t.py"])]
  {
    TestsVerdicts();
    SampleArchive(PackageWithTestsPolicy());
  }
}
