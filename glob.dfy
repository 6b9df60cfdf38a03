/** Shell-style name matching as `fnmatch.fnmatchcase` performs it on a bare
    entry name: `*` matches any run of characters (including none), `?`
    matches exactly one character, and every other character matches itself. */
module Glob {
  import opened Seqs

  predicate IsWildcard(c: char) {
    c == '*' || c == '?'
  }

  /** A pattern without wildcards. */
  predicate IsLiteral(p: string) {
    forall i :: 0 <= i < |p| ==> !IsWildcard(p[i])
  }

  /** The number of `*` wildcards in a pattern. */
  function StarCount(p: string): nat {
    if p == [] then 0 else (if p[0] == '*' then 1 else 0) + StarCount(p[1..])
  }

  /** Does `name` match the glob `pattern`? (argument order of `fnmatch`) */
  function Matches(name: string, pattern: string): bool
    decreases |pattern| + |name|
  {
    if pattern == [] then name == []
    else if pattern[0] == '*' then
      Matches(name, pattern[1..]) || (name != [] && Matches(name[1..], pattern))
    else
      name != [] && (pattern[0] == '?' || pattern[0] == name[0]) &&
      Matches(name[1..], pattern[1..])
  }

  /** Every pattern character other than `*` consumes exactly one character
      of the name, so a match is at least that long, and exactly that long
      when the pattern has no `*`. */
  lemma {:induction false} MatchLength(name: string, pattern: string)
    requires Matches(name, pattern)
    ensures |name| + StarCount(pattern) >= |pattern|
    ensures StarCount(pattern) == 0 ==> |name| == |pattern|
    decreases |pattern| + |name|
  {
    if pattern == [] {
    } else if pattern[0] == '*' {
      if Matches(name, pattern[1..]) {
        MatchLength(name, pattern[1..]);
      } else {
        MatchLength(name[1..], pattern);
      }
    } else {
      MatchLength(name[1..], pattern[1..]);
    }
  }

  /** A lone `*` accepts every name. */
  lemma {:induction false} StarMatchesAll(name: string)
    ensures Matches(name, "*")
    decreases |name|
  {
    if name != [] {
      StarMatchesAll(name[1..]);
    }
  }

  /** A literal pattern matches exactly the name equal to it. */
  lemma {:induction false} LiteralMatchesItself(name: string, lit: string)
    requires IsLiteral(lit)
    ensures Matches(name, lit) <==> name == lit
    decreases |lit|
  {
    if lit != [] && name != [] {
      assert IsLiteral(lit[1..]) by {
        forall i | 0 <= i < |lit[1..]| ensures !IsWildcard(lit[1..][i]) {
          assert lit[1..][i] == lit[i + 1];
        }
      }
      LiteralMatchesItself(name[1..], lit[1..]);
      assert name == [name[0]] + name[1..];
      assert lit == [lit[0]] + lit[1..];
    }
  }

  /** `lit*` matches exactly the names that start with `lit`. */
  lemma {:induction false} LiteralThenStar(name: string, lit: string)
    requires IsLiteral(lit)
    ensures Matches(name, lit + "*") <==> StartsWith(name, lit)
    decreases |lit|
  {
    if lit == [] {
      assert lit + "*" == "*";
      StarMatchesAll(name);
    } else {
      assert (lit + "*")[0] == lit[0];
      assert (lit + "*")[1..] == lit[1..] + "*";
      assert !IsWildcard(lit[0]);
      if name != [] {
        assert IsLiteral(lit[1..]) by {
          forall i | 0 <= i < |lit[1..]| ensures !IsWildcard(lit[1..][i]) {
            assert lit[1..][i] == lit[i + 1];
          }
        }
        LiteralThenStar(name[1..], lit[1..]);
        if StartsWith(name, lit) {
          assert name[1..][..|lit| - 1] == name[..|lit|][1..];
        }
        if name[0] == lit[0] && StartsWith(name[1..], lit[1..]) {
          assert name[..|lit|] == [name[0]] + name[1..][..|lit| - 1];
          assert lit == [lit[0]] + lit[1..];
        }
      }
    }
  }

  /** `*lit` matches exactly the names that end with `lit`. */
  lemma {:induction false} StarThenLiteral(name: string, lit: string)
    requires IsLiteral(lit)
    ensures Matches(name, "*" + lit) <==> EndsWith(name, lit)
    decreases |name|
  {
    var p := "*" + lit;
    assert p[0] == '*' && p[1..] == lit;
    LiteralMatchesItself(name, lit);
    if name != [] {
      StarThenLiteral(name[1..], lit);
      if |lit| <= |name| - 1 {
        assert name[1..][|name| - 1 - |lit|..] == name[|name| - |lit|..];
      }
    } else {
      if EndsWith(name, lit) {
        assert lit == [];
      }
    }
  }
}
