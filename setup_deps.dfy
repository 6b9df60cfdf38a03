/** The dependency rewrite in the `setup` task: an editable requirement
    `-e <url>#egg=<name>` is installed from `<ext_src>/<name>`, every
    other requirement as written. */
module SetupDeps {
  import opened Wrappers
  import opened Seqs
  import opened Config

  const Egg: string := "#egg="

  const Editable: string := "-e"

  /** `sep` occurs in `s` starting at index `i`. */
  predicate OccursAt(s: string, sep: string, i: nat) {
    i + |sep| <= |s| && s[i..i + |sep|] == sep
  }

  predicate Contains(s: string, sep: string) {
    exists i: nat :: i <= |s| && OccursAt(s, sep, i)
  }

  /** The first occurrence of `sep` in `s` at or after `from`. */
  function FindFrom(s: string, sep: string, from: nat): (r: Option<nat>)
    ensures r.Some? ==> from <= r.value && OccursAt(s, sep, r.value)
    ensures r.Some? ==> forall j: nat :: from <= j < r.value ==> !OccursAt(s, sep, j)
    ensures r.None? ==> forall j: nat :: from <= j ==> !OccursAt(s, sep, j)
    decreases |s| - from
  {
    if from + |sep| > |s| then None
    else if s[from..from + |sep|] == sep then Some(from)
    else FindFrom(s, sep, from + 1)
  }

  /** `str.find`: the first occurrence of `sep` in `s`. */
  function Find(s: string, sep: string): (r: Option<nat>)
    ensures r.Some? ==> OccursAt(s, sep, r.value)
    ensures r.Some? ==> forall j: nat :: j < r.value ==> !OccursAt(s, sep, j)
    ensures r.None? <==> !Contains(s, sep)
  {
    FindFrom(s, sep, 0)
  }

  /** `str.split(sep)` for a non-empty separator: the pieces between the
      occurrences of `sep`, found left to right without overlap. */
  function Split(s: string, sep: string): (parts: seq<string>)
    requires sep != []
    ensures |parts| >= 1
    decreases |s|
  {
    match Find(s, sep)
    case None => [s]
    case Some(i) => [s[..i]] + Split(s[i + |sep|..], sep)
  }

  /** `sep.join(parts)`. */
  function Join(parts: seq<string>, sep: string): string
    requires |parts| >= 1
    decreases |parts|
  {
    if |parts| == 1 then parts[0] else parts[0] + sep + Join(parts[1..], sep)
  }

  /** Joining the pieces of a split with the separator restores the text. */
  lemma {:induction false} SplitJoin(s: string, sep: string)
    requires sep != []
    ensures Join(Split(s, sep), sep) == s
    decreases |s|
  {
    if Find(s, sep).Some? {
      var i := Find(s, sep).value;
      var rest := s[i + |sep|..];
      var parts := Split(s, sep);
      assert parts == [s[..i]] + Split(rest, sep);
      assert parts[1..] == Split(rest, sep);
      SplitJoin(rest, sep);
      assert Join(parts, sep) == s[..i] + sep + rest;
      assert s[i..i + |sep|] == sep;
      assert s == s[..i] + s[i..i + |sep|] + rest;
    }
  }

  /** An occurrence in a prefix is an occurrence in the whole. */
  lemma OccursInPrefix(s: string, sep: string, i: nat, j: nat)
    requires i <= |s| && OccursAt(s[..i], sep, j)
    ensures OccursAt(s, sep, j)
  {
    assert s[..i][j..j + |sep|] == s[j..j + |sep|];
  }

  /** The text before the first occurrence holds no occurrence. */
  lemma BeforeFirstFree(s: string, sep: string, i: nat)
    requires sep != [] && Find(s, sep) == Some(i)
    ensures !Contains(s[..i], sep)
  {
    forall j: nat | j <= i && OccursAt(s[..i], sep, j) ensures false {
      OccursInPrefix(s, sep, i, j);
    }
  }

  /** No piece of a split holds the separator. */
  lemma {:induction false} SplitPartsFree(s: string, sep: string)
    requires sep != []
    ensures forall k :: 0 <= k < |Split(s, sep)| ==> !Contains(Split(s, sep)[k], sep)
    decreases |s|
  {
    if Find(s, sep).Some? {
      var i := Find(s, sep).value;
      var rest := s[i + |sep|..];
      var parts := Split(s, sep);
      assert parts == [s[..i]] + Split(rest, sep);
      SplitPartsFree(rest, sep);
      BeforeFirstFree(s, sep, i);
      forall k | 0 < k < |parts| ensures !Contains(parts[k], sep) {
        assert parts[k] == Split(rest, sep)[k - 1];
      }
    }
  }

  /** `posixpath.join(a, b)`, which `path.__div__` uses. */
  function PathJoin(a: string, b: string): (r: string)
    ensures StartsWith(r, a) || StartsWith(b, "/")
    ensures EndsWith(r, b)
    ensures StartsWith(b, "/") ==> r == b
    ensures !StartsWith(b, "/") && a != [] && a[|a| - 1] != '/' ==> r == a + "/" + b
  {
    if StartsWith(b, "/") then b
    else if a == [] || a[|a| - 1] == '/' then
      assert (a + b)[|a|..] == b;
      a + b
    else
      assert (a + "/" + b)[|a| + 1..] == b;
      a + "/" + b
  }

  /** What `setup` hands to `easy_install` for one requirement, or the
      `ValueError` the unpacking of `req.split('#egg=')` raises when an
      editable requirement does not hold exactly one `#egg=`. */
  function EasyInstallTarget(req: string, extSrc: string): (r: Result<string>)
    ensures !StartsWith(req, Editable) ==> r == Success(req)
    ensures StartsWith(req, Editable) && !Contains(req, Egg) ==> r.Failure?
  {
    if !StartsWith(req, Editable) then Success(req)
    else
      var parts := Split(req, Egg);
      if |parts| < 2 then Failure("ValueError: need more than 1 value to unpack")
      else if |parts| > 2 then Failure("ValueError: too many values to unpack")
      else Success(PathJoin(extSrc, parts[1]))
  }

  /** A successful rewrite of an editable requirement cut it at its only
      `#egg=`: the egg name after it lands under the source directory. */
  lemma EasyInstallTargetSound(req: string, extSrc: string) returns (url: string, egg: string)
    requires StartsWith(req, Editable) && EasyInstallTarget(req, extSrc).Success?
    ensures req == url + Egg + egg
    ensures !Contains(url, Egg) && !Contains(egg, Egg)
    ensures EasyInstallTarget(req, extSrc).value == PathJoin(extSrc, egg)
  {
    var parts := Split(req, Egg);
    url, egg := parts[0], parts[1];
    SplitJoin(req, Egg);
    SplitPartsFree(req, Egg);
    assert Join(parts, Egg) == url + Egg + Join(parts[1..], Egg);
  }

  /** `#` opens `#egg=` and appears nowhere else in it, so two occurrences
      never overlap and an occurrence never straddles a seam. */
  lemma EggOnlyAtSeam(u: string, e: string, j: nat)
    requires OccursAt(u + Egg + e, Egg, j)
    requires |u| < j + |Egg| && j < |u| + |Egg|
    ensures j == |u|
  {
    var s := u + Egg + e;
    assert s[j..j + |Egg|] == Egg;
    assert s[j] == '#';
    assert s[|u|] == '#';
    assert forall k :: |u| < k < |u| + |Egg| ==> s[k] == Egg[k - |u|] != '#';
    assert forall k :: j < k < j + |Egg| ==> s[k] == Egg[k - j] != '#';
  }

  /** Conversely, an editable requirement with exactly one `#egg=` is
      rewritten to the egg name under the source directory. */
  lemma EasyInstallTargetComplete(url: string, egg: string, extSrc: string)
    requires StartsWith(url, Editable)
    requires !Contains(url, Egg) && !Contains(egg, Egg)
    ensures EasyInstallTarget(url + Egg + egg, extSrc) == Success(PathJoin(extSrc, egg))
  {
    var s := url + Egg + egg;
    assert StartsWith(s, Editable) by {
      assert s[..|Editable|] == url[..|Editable|];
    }
    assert OccursAt(s, Egg, |url|) by {
      assert s[|url|..|url| + |Egg|] == Egg;
    }
    forall j: nat | j < |url| ensures !OccursAt(s, Egg, j) {
      if OccursAt(s, Egg, j) {
        if j + |Egg| <= |url| {
          assert s[j..j + |Egg|] == url[j..j + |Egg|];
          assert OccursAt(url, Egg, j);
        } else {
          EggOnlyAtSeam(url, egg, j);
        }
      }
    }
    assert Find(s, Egg) == Some(|url|);
    assert s[..|url|] == url;
    assert s[|url| + |Egg|..] == egg;
    assert Split(s, Egg) == [url] + Split(egg, Egg);
    assert Find(egg, Egg).None?;
    assert Split(egg, Egg) == [egg];
    assert Split(s, Egg) == [url, egg];
  }

  /** With the default options, `-e <url>#egg=<name>` is installed from
      `src/opengeo/ext-src/<name>`. */
  lemma EditableInstallsFromExtSrc(url: string, egg: string)
    requires StartsWith(url, Editable)
    requires !Contains(url, Egg) && !Contains(egg, Egg) && !StartsWith(egg, "/")
    ensures EasyInstallTarget(url + Egg + egg, DefaultOptions().extSrc) ==
      Success("src/opengeo/ext-src/" + egg)
  {
    var extSrc := DefaultOptions().extSrc;
    EasyInstallTargetComplete(url, egg, extSrc);
    assert extSrc[|extSrc| - 1] == 'c';
    assert extSrc + "/" + egg == "src/opengeo/ext-src/" + egg;
  }

  /** The targets of the whole `for req in runtime + test` loop, or the
      error of the first requirement that cannot be rewritten. */
  function InstallTargets(reqs: seq<string>, extSrc: string): (r: Result<seq<string>>)
    ensures r.Success? <==> forall i :: 0 <= i < |reqs| ==> EasyInstallTarget(reqs[i], extSrc).Success?
    ensures r.Success? ==> |r.value| == |reqs|
    ensures r.Success? ==> forall i :: 0 <= i < |reqs| ==> r.value[i] == EasyInstallTarget(reqs[i], extSrc).value
    decreases |reqs|
  {
    if reqs == [] then Success([])
    else
      match EasyInstallTarget(reqs[0], extSrc)
      case Failure(err) => Failure(err)
      case Success(t) =>
        match InstallTargets(reqs[1..], extSrc)
        case Failure(err) => Failure(err)
        case Success(ts) =>
          assert forall i :: 1 <= i < |reqs| ==> reqs[i] == reqs[1..][i - 1];
          Success([t] + ts)
  }
}
