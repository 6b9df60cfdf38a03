/** `filter_excludes`: remove, in place, the entries of a directory listing
    that the exclusion policy drops. */
module Filter {
  import opened Seqs
  import opened Exclusion

  /** The entries of `s` that `pol` keeps, in their order in `s`. */
  function Kept(pol: ExclusionPolicy, s: seq<string>): seq<string>
    decreases |s|
  {
    if s == [] then []
    else Kept(pol, s[..|s| - 1]) + (if pol.Drops(s[|s| - 1]) then [] else [s[|s| - 1]])
  }

  /** An entry survives if and only if it was listed and is not dropped. */
  lemma {:induction false} KeptMembership(pol: ExclusionPolicy, s: seq<string>, x: string)
    ensures x in Kept(pol, s) <==> x in s && !pol.Drops(x)
    decreases |s|
  {
    if s != [] {
      KeptMembership(pol, s[..|s| - 1], x);
      assert s == s[..|s| - 1] + [s[|s| - 1]];
    }
  }

  /** Every kept name keeps all its copies, every dropped name loses all of
      them: nothing that survives the policy is removed. */
  lemma {:induction false} KeptCounts(pol: ExclusionPolicy, s: seq<string>, x: string)
    ensures multiset(Kept(pol, s))[x] == if pol.Drops(x) then 0 else multiset(s)[x]
    decreases |s|
  {
    if s != [] {
      KeptCounts(pol, s[..|s| - 1], x);
      assert s == s[..|s| - 1] + [s[|s| - 1]];
    }
  }

  /** The survivors stay in their original relative order. */
  lemma {:induction false} KeptIsSubseq(pol: ExclusionPolicy, s: seq<string>)
    ensures IsSubseq(Kept(pol, s), s)
    decreases |s|
  {
    if s != [] {
      var s' := s[..|s| - 1];
      KeptIsSubseq(pol, s');
      if pol.Drops(s[|s| - 1]) {
        SubseqExtend(Kept(pol, s'), s', [s[|s| - 1]]);
        assert s' + [s[|s| - 1]] == s;
        assert Kept(pol, s) == Kept(pol, s');
        assert IsSubseq(Kept(pol, s'), s);
      } else {
        var k := Kept(pol, s);
        assert k[..|k| - 1] == Kept(pol, s');
      }
    }
  }

  /** A listing nothing of which is dropped comes back unchanged. */
  lemma {:induction false} KeptIdentity(pol: ExclusionPolicy, s: seq<string>)
    ensures Kept(pol, s) == s <==> forall i :: 0 <= i < |s| ==> !pol.Drops(s[i])
    decreases |s|
  {
    if s != [] {
      var s', x := s[..|s| - 1], s[|s| - 1];
      assert s == s' + [x];
      KeptIdentity(pol, s');
      if pol.Drops(x) {
        KeptLength(pol, s');
      } else {
        assert Kept(pol, s) == Kept(pol, s') + [x];
        if Kept(pol, s) == s {
          assert Kept(pol, s') == Kept(pol, s)[..|s'|];
        }
      }
      assert forall i :: 0 <= i < |s'| ==> s'[i] == s[i];
    }
  }

  lemma {:induction false} KeptLength(pol: ExclusionPolicy, s: seq<string>)
    ensures |Kept(pol, s)| <= |s|
    decreases |s|
  {
    if s != [] {
      KeptLength(pol, s[..|s| - 1]);
    }
  }

  /** A policy that drops more keeps a subsequence of what a policy that
      drops less keeps. */
  lemma {:induction false} KeptMonotone(stricter: ExclusionPolicy, looser: ExclusionPolicy, s: seq<string>)
    requires forall n :: looser.Drops(n) ==> stricter.Drops(n)
    ensures IsSubseq(Kept(stricter, s), Kept(looser, s))
    decreases |s|
  {
    if s != [] {
      var s', x := s[..|s| - 1], s[|s| - 1];
      KeptMonotone(stricter, looser, s');
      var a, b := Kept(stricter, s), Kept(looser, s);
      if !stricter.Drops(x) {
        assert a[..|a| - 1] == Kept(stricter, s');
        assert b[..|b| - 1] == Kept(looser, s');
      } else if !looser.Drops(x) {
        assert a == Kept(stricter, s');
        assert b == Kept(looser, s') + [x];
        SubseqExtend(Kept(stricter, s'), Kept(looser, s'), [x]);
      } else {
        assert a == Kept(stricter, s');
        assert b == Kept(looser, s');
      }
    }
  }

  /** A Python list of entry names, updated in place. */
  class NameList {
    var items: seq<string>

    constructor (s: seq<string>)
      ensures items == s
    {
      items := s;
    }

    /** `list.remove(x)`: delete the first `x`; an absent `x` is the
        `ValueError` case, reported as `found == false`. */
    method Remove(x: string) returns (found: bool)
      modifies this
      ensures found == (x in old(items))
      ensures items == if found then RemoveFirst(old(items), x) else old(items)
    {
      found := x in items;
      if found {
        items := RemoveFirst(items, x);
      }
    }
  }

  /** One step of `filter_excludes`: the entry at `k` is still present, and
      removing it (when dropped) or leaving it (when kept) advances the
      invariant "processed prefix filtered, rest untouched" by one. */
  lemma FilterStep(pol: ExclusionPolicy, s: seq<string>, k: nat)
    requires k < |s|
    ensures s[k] in Kept(pol, s[..k]) + s[k..]
    ensures pol.Drops(s[k]) ==>
      RemoveFirst(Kept(pol, s[..k]) + s[k..], s[k]) == Kept(pol, s[..k + 1]) + s[k + 1..]
    ensures !pol.Drops(s[k]) ==>
      Kept(pol, s[..k]) + s[k..] == Kept(pol, s[..k + 1]) + s[k + 1..]
  {
    var done, x, rest := Kept(pol, s[..k]), s[k], s[k + 1..];
    assert s[k..] == [x] + rest;
    assert s[..k + 1][..k] == s[..k];
    assert Kept(pol, s[..k + 1]) == done + (if pol.Drops(x) then [] else [x]);
    assert (done + [x]) + rest == done + ([x] + rest);
    assert (done + [x] + rest)[|done|] == x;
    if pol.Drops(x) {
      KeptMembership(pol, s[..k], x);
      RemoveFirstAfter(done, x, rest);
    }
  }

  /** `filter_excludes(root, items)`: walk a copy of the listing and remove
      from the list itself every entry the policy drops; return the list. */
  method FilterExcludes(pol: ExclusionPolicy, items: NameList) returns (r: seq<string>)
    modifies items
    ensures items.items == Kept(pol, old(items.items))
    ensures r == items.items
  {
    if items.items == [] {
      return [];
    }
    var snapshot := items.items;
    for k := 0 to |snapshot|
      invariant items.items == Kept(pol, snapshot[..k]) + snapshot[k..]
    {
      var item := snapshot[k];
      FilterStep(pol, snapshot, k);
      if pol.Exclude(item) && item !in pol.skips {
        var found := items.Remove(item);
      }
    }
    assert snapshot[..|snapshot|] == snapshot;
    r := items.items;
  }
}
