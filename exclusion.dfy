/** The exclusion policy of the packaging tasks: a set of glob patterns matched
    against an entry's bare name, vetoed by a list of literal names. */
module Exclusion {
  import opened Seqs
  import opened Glob
  import opened Config

  datatype ExclusionPolicy = ExclusionPolicy(excludes: set<string>, skips: seq<string>) {

    /** `make_zip`'s `exclude`: the name matches some pattern of the set. */
    predicate Exclude(name: string) {
      exists e :: e in excludes && Matches(name, e)
    }

    /** The test in `filter_excludes`: an entry is removed when a pattern
        matches its name and the name is not on the skip list. */
    predicate Drops(name: string) {
      Exclude(name) && name !in skips
    }
  }

  /** Python's `set(list)`. */
  function SetOf(s: seq<string>): set<string> {
    set e | e in s
  }

  /** The policy `make_zip` builds from the options: base patterns for a
      package that keeps its tests, full patterns otherwise. */
  function PolicyFor(opts: PluginOptions, basefilters: bool): (r: ExclusionPolicy)
    ensures basefilters ==> forall e :: e in r.excludes <==> e in opts.baseExcludes
    ensures !basefilters ==> forall e :: e in r.excludes <==> e in opts.excludes
    ensures r.skips == opts.skipExclude
  {
    ExclusionPolicy(SetOf(if basefilters then opts.baseExcludes else opts.excludes), opts.skipExclude)
  }

  /** `any([fnmatch(name, e) for e in order])` for one iteration order of the
      pattern set. */
  function AnyMatch(name: string, order: seq<string>): (r: bool)
    ensures r <==> exists i :: 0 <= i < |order| && Matches(name, order[i])
  {
    if order == [] then false
    else AnyMatch(name, order[..|order| - 1]) || Matches(name, order[|order| - 1])
  }

  lemma AnyMatchAppend(name: string, a: seq<string>, b: seq<string>)
    ensures AnyMatch(name, a + b) <==> AnyMatch(name, a) || AnyMatch(name, b)
  {
    if AnyMatch(name, b) {
      var i :| 0 <= i < |b| && Matches(name, b[i]);
      assert (a + b)[|a| + i] == b[i];
    }
    if AnyMatch(name, a) {
      var i :| 0 <= i < |a| && Matches(name, a[i]);
      assert (a + b)[i] == a[i];
    }
    if AnyMatch(name, a + b) {
      var i :| 0 <= i < |a + b| && Matches(name, (a + b)[i]);
      if i >= |a| {
        assert b[i - |a|] == (a + b)[i];
      } else {
        assert a[i] == (a + b)[i];
      }
    }
  }

  lemma AnyMatchCons(name: string, p: string, rest: seq<string>)
    ensures AnyMatch(name, [p] + rest) <==> Matches(name, p) || AnyMatch(name, rest)
  {
    AnyMatchAppend(name, [p], rest);
    assert [p][0] == p;
  }

  /** However the pattern set is enumerated, in whatever order and with
      whatever repetitions, `any` gives the same verdict as the set. */
  lemma ExcludeIgnoresOrder(pol: ExclusionPolicy, order: seq<string>, name: string)
    requires forall e :: e in order <==> e in pol.excludes
    ensures AnyMatch(name, order) == pol.Exclude(name)
  {
    if pol.Exclude(name) {
      var e :| e in pol.excludes && Matches(name, e);
      var i :| 0 <= i < |order| && order[i] == e;
    }
  }

  function PackagePolicy(): ExclusionPolicy {
    PolicyFor(DefaultOptions(), false)
  }

  function PackageWithTestsPolicy(): ExclusionPolicy {
    PolicyFor(DefaultOptions(), true)
  }

  /** The base patterns, read without globs. */
  lemma BasePatternsMeaning(name: string)
    ensures AnyMatch(name, BaseExcludes()) <==>
      name == ".DS_Store" || EndsWith(name, ".pyc") || StartsWith(name, "gisdata")
  {
    assert BaseExcludes() == [".DS_Store"] + ["*.pyc", "gisdata*"];
    assert ["*.pyc", "gisdata*"] == ["*.pyc"] + ["gisdata*"];
    assert ["gisdata*"] == ["gisdata*"] + [];
    AnyMatchCons(name, ".DS_Store", ["*.pyc", "gisdata*"]);
    AnyMatchCons(name, "*.pyc", ["gisdata*"]);
    AnyMatchCons(name, "gisdata*", []);
    BaseEachMeaning(name);
  }

  lemma BaseEachMeaning(name: string)
    ensures Matches(name, ".DS_Store") <==> name == ".DS_Store"
    ensures Matches(name, "*.pyc") <==> EndsWith(name, ".pyc")
    ensures Matches(name, "gisdata*") <==> StartsWith(name, "gisdata")
  {
    LiteralMatchesItself(name, ".DS_Store");
    assert "*.pyc" == "*" + ".pyc";
    StarThenLiteral(name, ".pyc");
    assert "gisdata*" == "gisdata" + "*";
    LiteralThenStar(name, "gisdata");
  }

  /** The patterns `full_excludes` adds, read without globs. */
  lemma ExtraPatternsMeaning(name: string)
    ensures AnyMatch(name, ExtraExcludes) <==>
      name == "test" || name == "test-output" || name == "ext-src" ||
      StartsWith(name, "coverage") || StartsWith(name, "nose")
  {
    assert ExtraExcludes == ["test"] + ["test-output", "ext-src", "coverage*", "nose*"];
    assert ["test-output", "ext-src", "coverage*", "nose*"] == ["test-output"] + ["ext-src", "coverage*", "nose*"];
    assert ["ext-src", "coverage*", "nose*"] == ["ext-src"] + ["coverage*", "nose*"];
    assert ["coverage*", "nose*"] == ["coverage*"] + ["nose*"];
    assert ["nose*"] == ["nose*"] + [];
    AnyMatchCons(name, "test", ["test-output", "ext-src", "coverage*", "nose*"]);
    AnyMatchCons(name, "test-output", ["ext-src", "coverage*", "nose*"]);
    AnyMatchCons(name, "ext-src", ["coverage*", "nose*"]);
    AnyMatchCons(name, "coverage*", ["nose*"]);
    AnyMatchCons(name, "nose*", []);
    ExtraLiteralsMeaning(name);
    ExtraPrefixesMeaning(name);
  }

  lemma ExtraLiteralsMeaning(name: string)
    ensures Matches(name, "test") <==> name == "test"
    ensures Matches(name, "test-output") <==> name == "test-output"
    ensures Matches(name, "ext-src") <==> name == "ext-src"
  {
    LiteralMatchesItself(name, "test");
    LiteralMatchesItself(name, "test-output");
    LiteralMatchesItself(name, "ext-src");
  }

  lemma ExtraPrefixesMeaning(name: string)
    ensures Matches(name, "coverage*") <==> StartsWith(name, "coverage")
    ensures Matches(name, "nose*") <==> StartsWith(name, "nose")
  {
    assert "coverage*" == "coverage" + "*";
    LiteralThenStar(name, "coverage");
    assert "nose*" == "nose" + "*";
    LiteralThenStar(name, "nose");
  }

  /** `coverage.xsd`, the one skip-listed name, matches no base pattern. */
  lemma SkipNameNotBase()
    ensures !AnyMatch("coverage.xsd", BaseExcludes())
  {
    var name := "coverage.xsd";
    BasePatternsMeaning(name);
    assert name[|name| - 4..] == ".xsd";
    assert name[..7] == "coverag";
  }

  /** What the minimal policy removes, stated without globs. */
  lemma BasePolicyDrops(name: string)
    ensures PackageWithTestsPolicy().Drops(name) <==>
      name == ".DS_Store" || EndsWith(name, ".pyc") || StartsWith(name, "gisdata")
  {
    ExcludeIgnoresOrder(PackageWithTestsPolicy(), BaseExcludes(), name);
    BasePatternsMeaning(name);
    SkipNameNotBase();
  }

  /** What the release policy removes, stated without globs: the skip list
      rescues `coverage.xsd` from `coverage*`. */
  lemma FullPolicyDrops(name: string)
    ensures PackagePolicy().Drops(name) <==>
      (name == ".DS_Store" || EndsWith(name, ".pyc") || StartsWith(name, "gisdata") ||
       name == "test" || name == "test-output" || name == "ext-src" ||
       StartsWith(name, "coverage") || StartsWith(name, "nose")) &&
      name != "coverage.xsd"
  {
    ExcludeIgnoresOrder(PackagePolicy(), FullExcludes(), name);
    AnyMatchAppend(name, BaseExcludes(), ExtraExcludes);
    BasePatternsMeaning(name);
    ExtraPatternsMeaning(name);
  }

  /** Every entry the minimal policy removes, the release policy removes too. */
  lemma BaseDropsImplyFullDrops(name: string)
    ensures PackageWithTestsPolicy().Drops(name) ==> PackagePolicy().Drops(name)
  {
    ExcludeIgnoresOrder(PackageWithTestsPolicy(), BaseExcludes(), name);
    ExcludeIgnoresOrder(PackagePolicy(), FullExcludes(), name);
    AnyMatchAppend(name, BaseExcludes(), ExtraExcludes);
  }

  /** The skip list vetoes a pattern match, and the test directory is kept
      only by the minimal policy. */
  lemma SkipAndTestVerdicts()
    ensures Matches("coverage.xsd", "coverage*") && !PackagePolicy().Drops("coverage.xsd")
    ensures PackagePolicy().Drops("test") && !PackageWithTestsPolicy().Drops("test")
  {
    assert "coverage*" == "coverage" + "*";
    LiteralThenStar("coverage.xsd", "coverage");
    assert "coverage.xsd"[..8] == "coverage";
    FullPolicyDrops("test");
    BasePolicyDrops("test");
    assert "test"[|"test"| - 4..] == "test";
  }
}
