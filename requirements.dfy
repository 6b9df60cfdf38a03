/** `read_requirements`: split the lines of `requirements.txt` into runtime
    and test requirements at the divider comment `# test requirements`. */
module Requirements {
  import opened Wrappers
  import opened Seqs

  const Divider: string := "# test requirements"

  const MissingDivider: string := "expected to find \"# test requirements\" in requirements.txt"

  /** The characters that Python 2's `str.strip()` removes. */
  predicate IsSpace(c: char) {
    c == ' ' || c == '\t' || c == '\n' || c == '\r' || c == '\U{000B}' || c == '\U{000C}'
  }

  predicate AllSpace(s: string) {
    forall j :: 0 <= j < |s| ==> IsSpace(s[j])
  }

  /** Neither end of `s` is whitespace. */
  predicate IsStripped(s: string) {
    s == [] || (!IsSpace(s[0]) && !IsSpace(s[|s| - 1]))
  }

  /** `str.lstrip()`: `s` without its leading whitespace. */
  function StripStart(s: string): (r: string)
    ensures |r| <= |s|
    ensures r == [] || !IsSpace(r[0])
    decreases |s|
  {
    if s != [] && IsSpace(s[0]) then StripStart(s[1..]) else s
  }

  /** `str.rstrip()`: `s` without its trailing whitespace. */
  function StripEnd(s: string): (r: string)
    ensures |r| <= |s|
    ensures r == [] || !IsSpace(r[|r| - 1])
    decreases |s|
  {
    if s != [] && IsSpace(s[|s| - 1]) then StripEnd(s[..|s| - 1]) else s
  }

  /** `StripStart` cuts off a whitespace prefix and keeps the rest. */
  lemma {:induction false} StripStartCuts(s: string)
    ensures StripStart(s) == s[|s| - |StripStart(s)|..]
    ensures AllSpace(s[..|s| - |StripStart(s)|])
    decreases |s|
  {
    if s != [] && IsSpace(s[0]) {
      var t := s[1..];
      StripStartCuts(t);
      var n := |s| - |StripStart(s)|;
      assert t[n - 1..] == s[n..];
      assert forall j :: 1 <= j < n ==> s[..n][j] == t[..n - 1][j - 1];
    }
  }

  /** `StripEnd` keeps a prefix and cuts off the whitespace suffix after it. */
  lemma {:induction false} StripEndCuts(s: string)
    ensures StripEnd(s) == s[..|StripEnd(s)|]
    ensures AllSpace(s[|StripEnd(s)|..])
    decreases |s|
  {
    if s != [] && IsSpace(s[|s| - 1]) {
      var t := s[..|s| - 1];
      StripEndCuts(t);
      var n := |StripEnd(s)|;
      assert t[..n] == s[..n];
      assert forall j :: 0 <= j < |t| - n ==> s[n..][j] == t[n..][j];
    }
  }

  /** `str.strip()`. */
  function Strip(s: string): (r: string)
    ensures IsStripped(r)
    ensures |r| <= |s|
  {
    var t := StripStart(s);
    var r := StripEnd(t);
    StripEndCuts(t);
    assert r != [] ==> r[0] == t[0];
    r
  }

  /** `Strip(s)` is `s` with a whitespace prefix and a whitespace suffix cut off. */
  lemma StripCuts(s: string) returns (pre: string, post: string)
    ensures s == pre + Strip(s) + post
    ensures AllSpace(pre) && AllSpace(post)
  {
    var t := StripStart(s);
    var r := StripEnd(t);
    StripStartCuts(s);
    StripEndCuts(t);
    pre, post := s[..|s| - |t|], t[|r|..];
    assert t == r + post;
    assert s == pre + t;
    assert (pre + r) + post == pre + (r + post);
  }

  /** `StripStart` removes exactly a whitespace prefix that is followed by
      no further whitespace. */
  lemma {:induction false} StripStartUnique(pre: string, r: string)
    requires AllSpace(pre) && (r == [] || !IsSpace(r[0]))
    ensures StripStart(pre + r) == r
    decreases |pre|
  {
    if pre != [] {
      assert (pre + r)[1..] == pre[1..] + r;
      StripStartUnique(pre[1..], r);
    } else {
      assert pre + r == r;
    }
  }

  /** `StripEnd` removes exactly a whitespace suffix that follows no
      further whitespace. */
  lemma {:induction false} StripEndUnique(r: string, post: string)
    requires AllSpace(post) && (r == [] || !IsSpace(r[|r| - 1]))
    ensures StripEnd(r + post) == r
    decreases |post|
  {
    if post != [] {
      assert (r + post)[..|r + post| - 1] == r + post[..|post| - 1];
      StripEndUnique(r, post[..|post| - 1]);
    } else {
      assert r + post == r;
    }
  }

  /** Whatever whitespace surrounds a stripped string, `Strip` recovers it. */
  lemma StripUnique(pre: string, r: string, post: string)
    requires AllSpace(pre) && AllSpace(post) && IsStripped(r)
    ensures Strip(pre + r + post) == r
  {
    var s := pre + r + post;
    if r == [] {
      assert s == pre + post;
      assert AllSpace(s) by {
        forall j | 0 <= j < |s| ensures IsSpace(s[j]) {
          if j >= |pre| { assert s[j] == post[j - |pre|]; }
        }
      }
      StripStartUnique(s, []);
      assert s + [] == s;
    } else {
      assert s == pre + (r + post);
      StripStartUnique(pre, r + post);
      StripEndUnique(r, post);
    }
  }

  lemma StripIdempotent(s: string)
    ensures Strip(Strip(s)) == Strip(s)
  {
    StripUnique("", Strip(s), "");
    assert "" + Strip(s) + "" == Strip(s);
  }

  /** `[l for l in [l.strip() for l in lines] if l]`. */
  function Cleaned(lines: seq<string>): (r: seq<string>)
    ensures forall i :: 0 <= i < |r| ==> r[i] != "" && IsStripped(r[i])
    decreases |lines|
  {
    if lines == [] then []
    else
      var l := Strip(lines[|lines| - 1]);
      Cleaned(lines[..|lines| - 1]) + (if l != "" then [l] else [])
  }

  /** `[l for l in lines[s:e] if l[0] != '#']` over non-blank lines. */
  function NotComments(ls: seq<string>): (r: seq<string>)
    requires forall i :: 0 <= i < |ls| ==> ls[i] != ""
    ensures forall i :: 0 <= i < |r| ==> r[i] in ls && r[i][0] != '#'
    decreases |ls|
  {
    if ls == [] then []
    else
      var l := ls[|ls| - 1];
      NotComments(ls[..|ls| - 1]) + (if l[0] != '#' then [l] else [])
  }

  /** `read_requirements()` over the lines `readlines()` returned: the
      runtime and the test requirements, or the build failure raised when
      no line is the divider. */
  function ReadRequirements(lines: seq<string>): (r: Result<(seq<string>, seq<string>)>)
    ensures r.Failure? <==> forall k :: 0 <= k < |lines| ==> Strip(lines[k]) != Divider
    ensures r.Failure? ==> r.error == MissingDivider
    ensures r.Success? ==> forall l :: l in r.value.0 || l in r.value.1 ==>
      l != "" && IsStripped(l) && l[0] != '#' && l != Divider
  {
    CleanedMembership(lines, Divider);
    var cl := Cleaned(lines);
    if Divider !in cl then Failure(MissingDivider)
    else
      var idx := FirstIndex(cl, Divider);
      Success((NotComments(cl[..idx]), NotComments(cl[idx + 1..])))
  }

  /** Every cleaned line is the stripped form of some raw line. */
  lemma {:induction false} CleanedSound(lines: seq<string>, i: nat) returns (k: nat)
    requires i < |Cleaned(lines)|
    ensures k < |lines| && Strip(lines[k]) == Cleaned(lines)[i]
    decreases |lines|
  {
    var prev := lines[..|lines| - 1];
    var l := Strip(lines[|lines| - 1]);
    var tail := if l != "" then [l] else [];
    assert Cleaned(lines) == Cleaned(prev) + tail;
    if i < |Cleaned(prev)| {
      k := CleanedSound(prev, i);
      assert lines[k] == prev[k];
    } else {
      k := |lines| - 1;
    }
  }

  /** Every raw line that does not strip to nothing is kept, stripped. */
  lemma {:induction false} CleanedComplete(lines: seq<string>, k: nat)
    requires k < |lines| && Strip(lines[k]) != ""
    ensures Strip(lines[k]) in Cleaned(lines)
    decreases |lines|
  {
    var prev := lines[..|lines| - 1];
    var l := Strip(lines[|lines| - 1]);
    var tail := if l != "" then [l] else [];
    assert Cleaned(lines) == Cleaned(prev) + tail;
    if k < |prev| {
      assert lines[k] == prev[k];
      CleanedComplete(prev, k);
    }
  }

  /** A non-blank text is a cleaned line exactly when some line strips to it. */
  lemma CleanedMembership(lines: seq<string>, x: string)
    requires x != ""
    ensures x in Cleaned(lines) <==> exists k :: 0 <= k < |lines| && Strip(lines[k]) == x
  {
    if x in Cleaned(lines) {
      var k := CleanedSound(lines, FirstIndex(Cleaned(lines), x));
    }
    forall k | 0 <= k < |lines| && Strip(lines[k]) == x
      ensures x in Cleaned(lines)
    {
      CleanedComplete(lines, k);
    }
  }

  /** The requirement lines among `ls`, one line at a time: stripped,
      non-blank and not a comment. */
  function Payload(ls: seq<string>): seq<string>
    decreases |ls|
  {
    if ls == [] then []
    else
      var l := Strip(ls[|ls| - 1]);
      Payload(ls[..|ls| - 1]) + (if l != "" && l[0] != '#' then [l] else [])
  }

  lemma {:induction false} CleanedAppend(a: seq<string>, b: seq<string>)
    ensures Cleaned(a + b) == Cleaned(a) + Cleaned(b)
    decreases |b|
  {
    if b == [] {
      assert a + b == a;
    } else {
      var b' := b[..|b| - 1];
      var l := Strip(b[|b| - 1]);
      var tail := if l != "" then [l] else [];
      CleanedAppend(a, b');
      assert (a + b)[..|a + b| - 1] == a + b';
      assert (a + b)[|a + b| - 1] == b[|b| - 1];
      assert Cleaned(a + b) == Cleaned(a + b') + tail;
      assert Cleaned(b) == Cleaned(b') + tail;
      assert (Cleaned(a) + Cleaned(b')) + tail == Cleaned(a) + (Cleaned(b') + tail);
    }
  }

  lemma {:induction false} NotCommentsAppend(a: seq<string>, b: seq<string>)
    requires forall i :: 0 <= i < |a| ==> a[i] != ""
    requires forall i :: 0 <= i < |b| ==> b[i] != ""
    ensures NotComments(a + b) == NotComments(a) + NotComments(b)
    decreases |b|
  {
    if b == [] {
      assert a + b == a;
    } else {
      var b' := b[..|b| - 1];
      NotCommentsAppend(a, b');
      assert (a + b)[..|a + b| - 1] == a + b';
    }
  }

  /** Cleaning and then dropping comments keeps the same lines as the
      one-line-at-a-time reading. */
  lemma {:induction false} PayloadOfCleaned(ls: seq<string>)
    ensures NotComments(Cleaned(ls)) == Payload(ls)
    decreases |ls|
  {
    if ls != [] {
      var prev := ls[..|ls| - 1];
      var l := Strip(ls[|ls| - 1]);
      PayloadOfCleaned(prev);
      var tail := if l != "" then [l] else [];
      NotCommentsAppend(Cleaned(prev), tail);
      assert tail != [] ==> tail[..0] == [];
    }
  }

  /** A divider line between two runs of lines cleans to the divider
      between their cleaned runs. */
  lemma CleanedAround(pre: seq<string>, d: string, post: seq<string>)
    requires Strip(d) == Divider
    ensures Cleaned(pre + [d] + post) == Cleaned(pre) + [Divider] + Cleaned(post)
  {
    CleanedAppend(pre + [d], post);
    CleanedAppend(pre, [d]);
    assert [d][..0] == [];
    assert Cleaned([d]) == [Divider];
  }

  /** Lines none of which strips to the divider clean to lines without it. */
  lemma NoDividerBefore(lines: seq<string>, k: nat)
    requires k <= |lines|
    requires forall j :: 0 <= j < k ==> Strip(lines[j]) != Divider
    ensures Divider !in Cleaned(lines[..k])
  {
    CleanedMembership(lines[..k], Divider);
    assert forall j :: 0 <= j < k ==> lines[..k][j] == lines[j];
  }

  /** With the first divider line at `k`, the runtime requirements are the
      requirement lines before it and the test requirements the ones after
      it, each in file order; the divider is in neither. */
  lemma ReadRequirementsSplit(lines: seq<string>, k: nat)
    requires k < |lines| && Strip(lines[k]) == Divider
    requires forall j :: 0 <= j < k ==> Strip(lines[j]) != Divider
    ensures ReadRequirements(lines) == Success((Payload(lines[..k]), Payload(lines[k + 1..])))
  {
    var before, after := Cleaned(lines[..k]), Cleaned(lines[k + 1..]);
    assert lines == lines[..k] + [lines[k]] + lines[k + 1..];
    CleanedAround(lines[..k], lines[k], lines[k + 1..]);
    NoDividerBefore(lines, k);
    var cl := Cleaned(lines);
    FirstIndexAfter(before, Divider, after);
    assert cl[..|before|] == before;
    assert cl[|before| + 1..] == after;
    PayloadOfCleaned(lines[..k]);
    PayloadOfCleaned(lines[k + 1..]);
  }
}
