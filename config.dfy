/** The build script's static configuration: the two exclusion pattern lists
    and the `plugin` option group that the packaging tasks read. */
module Config {

  /** Patterns always excluded from a package: the macOS folder metadata file,
      compiled Python files and bundled GIS sample data. */
  function BaseExcludes(): seq<string> {
    [".DS_Store", "*.pyc", "gisdata*"]
  }

  /** The patterns that `full_excludes` appends to the base list: test
      sources, test and coverage output, and external source checkouts. */
  const ExtraExcludes: seq<string> := ["test", "test-output", "ext-src", "coverage*", "nose*"]

  /** The base list extended with the release-only patterns. */
  function FullExcludes(): (r: seq<string>)
    ensures |r| == |BaseExcludes()| + |ExtraExcludes|
    ensures r[..|BaseExcludes()|] == BaseExcludes()
    ensures r[|BaseExcludes()|..] == ExtraExcludes
  {
    BaseExcludes() + ExtraExcludes
  }

  /** The `plugin` option group. Paths are sequences of path segments,
      except `extSrc`, which is joined as a string when dependencies are set up. */
  datatype PluginOptions = PluginOptions(
    name: string,
    sourceDir: seq<string>,
    packageDir: seq<string>,
    extSrc: string,
    baseExcludes: seq<string>,
    excludes: seq<string>,
    skipExclude: seq<string>)

  /** The names that a pattern would otherwise wrongly exclude. */
  const SkipExclude: seq<string> := ["coverage.xsd"]

  /** The defaults: the plugin's sources live in `src/<name>`, its external
      checkouts in `ext-src` inside them, and the full list extends the base
      list. */
  function DefaultOptions(): (r: PluginOptions)
    ensures r.sourceDir == ["src", r.name]
    ensures r.extSrc == "src/" + r.name + "/ext-src"
    ensures r.packageDir == ["."]
    ensures r.baseExcludes == BaseExcludes() && r.excludes == FullExcludes()
    ensures r.excludes[..|r.baseExcludes|] == r.baseExcludes
    ensures r.skipExclude == ["coverage.xsd"]
  {
    PluginOptions(
      name := "opengeo",
      sourceDir := ["src", "opengeo"],
      packageDir := ["."],
      extSrc := "src/opengeo/ext-src",
      baseExcludes := BaseExcludes(),
      excludes := FullExcludes(),
      skipExclude := SkipExclude)
  }
}
