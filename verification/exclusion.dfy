/** The exclusion matcher (`shouldExclude`).

    A pattern either names an entry exactly or, when it ends in `*`, names
    every entry whose name starts with the rest of the pattern. There are no
    other wildcard positions and no path patterns. */
module Exclusion {

  const Wildcard: char := '*'

  /** The pattern ends in the wildcard. */
  predicate IsWildcard(pattern: string) {
    |pattern| > 0 && pattern[|pattern| - 1] == Wildcard
  }

  /** The pattern without its last character (`pattern.slice(0, -1)`). */
  function Stem(pattern: string): string
    requires IsWildcard(pattern)
  {
    pattern[..|pattern| - 1]
  }

  /** One pattern's test: exact equality, or a trailing-wildcard pattern
      whose stem is a prefix of the name. */
  predicate Matches(pattern: string, name: string) {
    pattern == name || (IsWildcard(pattern) && Stem(pattern) <= name)
  }

  /** Whether some pattern matches, tried in order as `Array.prototype.some`
      does. */
  predicate ShouldExclude(name: string, patterns: seq<string>) {
    if patterns == [] then false
    else Matches(patterns[0], name) || ShouldExclude(name, patterns[1..])
  }

  /** A name is excluded exactly when some pattern of the list matches it. */
  lemma {:induction false} ExcludedIffSomeMatch(name: string, patterns: seq<string>)
    ensures ShouldExclude(name, patterns)
        <==> exists i :: 0 <= i < |patterns| && Matches(patterns[i], name)
  {
    if patterns != [] {
      ExcludedIffSomeMatch(name, patterns[1..]);
      if ShouldExclude(name, patterns[1..]) {
        var j :| 0 <= j < |patterns[1..]| && Matches(patterns[1..][j], name);
        assert Matches(patterns[j + 1], name);
      }
      if exists i :: 0 <= i < |patterns| && Matches(patterns[i], name) {
        var i :| 0 <= i < |patterns| && Matches(patterns[i], name);
        if i > 0 {
          assert Matches(patterns[1..][i - 1], name);
        }
      }
    }
  }

  /** A pattern without a trailing wildcard excludes exactly the name it
      spells. */
  lemma LiteralExcludesExactly(p: string, name: string)
    requires !IsWildcard(p)
    ensures ShouldExclude(name, [p]) <==> name == p
  {
  }

  /** `stem + "*"` excludes exactly the names that start with `stem`. */
  lemma WildcardExcludesPrefixes(stem: string, name: string)
    ensures ShouldExclude(name, [stem + [Wildcard]]) <==> stem <= name
  {
    var p := stem + [Wildcard];
    assert Stem(p) == stem;
    if p == name {
      assert name[..|stem|] == stem;
    }
  }

  /** The lone pattern `*` excludes every name, wherever it appears in the
      list. */
  lemma StarExcludesEverything(name: string, patterns: seq<string>)
    requires [Wildcard] in patterns
    ensures ShouldExclude(name, patterns)
  {
    var i :| 0 <= i < |patterns| && patterns[i] == [Wildcard];
    assert Stem(patterns[i]) == [];
    assert Matches(patterns[i], name);
    ExcludedIffSomeMatch(name, patterns);
  }

  /** Only the set of patterns matters, not their order or repetition. */
  lemma PatternOrderIrrelevant(name: string, ps: seq<string>, qs: seq<string>)
    requires forall p :: p in ps <==> p in qs
    ensures ShouldExclude(name, ps) <==> ShouldExclude(name, qs)
  {
    ExcludedIffSomeMatch(name, ps);
    ExcludedIffSomeMatch(name, qs);
    if ShouldExclude(name, ps) {
      var i :| 0 <= i < |ps| && Matches(ps[i], name);
      assert ps[i] in qs;
      var j :| 0 <= j < |qs| && qs[j] == ps[i];
    }
    if ShouldExclude(name, qs) {
      var j :| 0 <= j < |qs| && Matches(qs[j], name);
      assert qs[j] in ps;
      var i :| 0 <= i < |ps| && ps[i] == qs[j];
    }
  }
}
