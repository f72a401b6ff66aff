/** Pattern matching used by discovery (hbasedb.py, `match_entries` and
    `_deduplicate`): fnmatch-style globbing extended with one `{a,b,...}`
    alternation group. */
module Glob {
  import opened Base
  import opened Text

  /** fnmatch.fnmatchcase(s, p) for patterns made of `*`, `?` and literal
      characters (a `[` is taken literally here). */
  predicate GlobMatch(p: string, s: string)
    decreases |p| + |s|
  {
    if |p| == 0 then |s| == 0
    else if p[0] == '*' then GlobMatch(p[1..], s) || (|s| > 0 && GlobMatch(p, s[1..]))
    else |s| > 0 && (p[0] == '?' || p[0] == s[0]) && GlobMatch(p[1..], s[1..])
  }

  /** A pattern without wildcards matches exactly itself. */
  lemma {:induction false} LiteralMatchesOnlyItself(p: string, s: string)
    requires '*' !in p && '?' !in p
    ensures GlobMatch(p, s) <==> s == p
  {
    if |p| > 0 && |s| > 0 {
      LiteralMatchesOnlyItself(p[1..], s[1..]);
      assert s == p <==> s[0] == p[0] && s[1..] == p[1..] by {
        assert s == [s[0]] + s[1..] && p == [p[0]] + p[1..];
      }
    }
  }

  /** `*` matches every name. */
  lemma {:induction false} StarMatchesAll(s: string)
    ensures GlobMatch("*", s)
  {
    if |s| > 0 {
      StarMatchesAll(s[1..]);
    }
  }

  /** fnmatch.filter(entries, p): the matching entries, in their order. */
  function Filter(entries: seq<string>, p: string): (r: seq<string>)
    ensures forall x :: x in r <==> x in entries && GlobMatch(p, x)
  {
    if |entries| == 0 then []
    else (if GlobMatch(p, entries[0]) then [entries[0]] else []) + Filter(entries[1..], p)
  }

  /** Some variant matches `x`. */
  predicate MatchesAny(variants: seq<string>, x: string) {
    |variants| > 0 && (GlobMatch(variants[0], x) || MatchesAny(variants[1..], x))
  }

  /** The matches of each variant in turn, concatenated. */
  function FilterEach(entries: seq<string>, variants: seq<string>): (r: seq<string>)
    ensures forall x :: x in r <==> x in entries && MatchesAny(variants, x)
  {
    if |variants| == 0 then []
    else Filter(entries, variants[0]) + FilterEach(entries, variants[1..])
  }

  /** A brace group exists when the first `{` comes before the first `}`. */
  predicate HasBraceGroup(pattern: string) {
    var v1, v2 := Find(pattern, '{'), Find(pattern, '}');
    v1 > -1 && v2 > v1
  }

  /** The patterns a brace group expands into: the text before `{`, one
      comma-separated alternative, and the text after `}`. */
  function Variants(pattern: string): (vs: seq<string>)
    requires HasBraceGroup(pattern)
    ensures |vs| >= 1
  {
    var v1, v2 := Find(pattern, '{'), Find(pattern, '}');
    var alternatives := Split(pattern[v1 + 1..v2], ',');
    seq(|alternatives|, i requires 0 <= i < |alternatives| => pattern[..v1] + alternatives[i] + pattern[v2 + 1..])
  }

  /** match_entries(entries, pattern) */
  function MatchEntries(entries: seq<string>, pattern: string): (r: seq<string>)
    ensures forall x :: x in r ==> x in entries
  {
    if HasBraceGroup(pattern) then Dedup(FilterEach(entries, Variants(pattern)))
    else
      var f := Filter(entries, pattern);
      var r := Sort(f);
      assert forall x :: x in r ==> x in multiset(f);
      r
  }

  /** With a brace group, the result is the union of the per-variant matches
      without repetitions, and every result is one of the entries. */
  lemma MatchEntriesWithBraces(entries: seq<string>, pattern: string)
    requires HasBraceGroup(pattern)
    ensures var r := MatchEntries(entries, pattern);
            var vs := Variants(pattern);
            && Distinct(r)
            && forall x :: x in r <==> x in entries && MatchesAny(vs, x)
  {
  }

  /** The matches are listed in the order they are first met, variant by
      variant and entry by entry. */
  lemma MatchEntriesFirstSeenOrder(entries: seq<string>, pattern: string, i: nat)
    requires HasBraceGroup(pattern)
    requires var all := FilterEach(entries, Variants(pattern)); i <= |all|
    ensures Dedup(FilterEach(entries, Variants(pattern))[..i]) <= MatchEntries(entries, pattern)
  {
    DedupPrefix(FilterEach(entries, Variants(pattern)), i);
  }

  /** Without a brace group, the result is the matching entries, sorted. */
  lemma MatchEntriesPlain(entries: seq<string>, pattern: string)
    requires !HasBraceGroup(pattern)
    ensures var r := MatchEntries(entries, pattern);
            && Sorted(r)
            && multiset(r) == multiset(Filter(entries, pattern))
            && forall x :: x in r <==> x in entries && GlobMatch(pattern, x)
  {
    var f := Filter(entries, pattern);
    var r := Sort(f);
    forall x ensures x in r <==> x in f {
      assert x in r <==> x in multiset(r);
      assert x in f <==> x in multiset(f);
    }
  }

  /** The names a pattern selects: one of the variants' globs when the
      pattern has a brace group, the pattern's own glob otherwise. */
  predicate Selects(pattern: string, x: string) {
    if HasBraceGroup(pattern) then MatchesAny(Variants(pattern), x) else GlobMatch(pattern, x)
  }

  /** Membership in the result, either way. */
  lemma MatchEntriesSelects(entries: seq<string>, pattern: string)
    ensures forall x :: x in MatchEntries(entries, pattern) <==> x in entries && Selects(pattern, x)
  {
    if HasBraceGroup(pattern) {
      MatchEntriesWithBraces(entries, pattern);
    } else {
      MatchEntriesPlain(entries, pattern);
    }
  }

  /** _deduplicate(entries): yields each entry the first time it is met. */
  method Deduplicate<T(==,!new)>(entries: seq<T>) returns (r: seq<T>)
    ensures r == Dedup(entries)
  {
    var yielded: set<T> := {};
    r := [];
    var i := 0;
    while i < |entries|
      invariant 0 <= i <= |entries|
      invariant r == Dedup(entries[..i])
      invariant forall x :: x in yielded <==> x in r
    {
      var entry := entries[i];
      assert entries[..i + 1][..i] == entries[..i] && entries[..i + 1][i] == entry;
      if entry !in yielded {
        yielded := yielded + {entry};
        r := r + [entry];
      }
      i := i + 1;
    }
    assert entries[..i] == entries;
  }

  /** match_entries(entries, pattern) as it runs: with a brace group, the
      matches of each variant are appended in turn and then de-duplicated;
      without one, the matches are sorted. */
  method CollectMatches(entries: seq<string>, pattern: string) returns (matching: seq<string>)
    ensures matching == MatchEntries(entries, pattern)
  {
    if HasBraceGroup(pattern) {
      var all := ExtendMatches(entries, Variants(pattern));
      matching := Deduplicate(all);
    } else {
      matching := Sort(Filter(entries, pattern));
    }
  }

  /** `for variant in variants: matching.extend(fnmatch.filter(entries, variant))` */
  method ExtendMatches(entries: seq<string>, variants: seq<string>) returns (matching: seq<string>)
    ensures matching == FilterEach(entries, variants)
  {
    matching := [];
    var i := 0;
    while i < |variants|
      invariant 0 <= i <= |variants|
      invariant matching + FilterEach(entries, variants[i..]) == FilterEach(entries, variants)
    {
      assert variants[i..][1..] == variants[i + 1..];
      matching := matching + Filter(entries, variants[i]);
      i := i + 1;
    }
  }

  /** A plain pattern: matches come back sorted. */
  lemma PlainMatchExample()
    ensures MatchEntries(["foobar", "bar", "foo"], "f*") == ["foo", "foobar"]
  {
    assert !HasBraceGroup("f*");
    PlainFilterExample();
    PlainSortExample();
  }

  lemma PlainFilterExample()
    ensures Filter(["foobar", "bar", "foo"], "f*") == ["foobar", "foo"]
  {
    StarMatchesAll("oobar");
    StarMatchesAll("oo");
    assert GlobMatch("f*", "foobar") && !GlobMatch("f*", "bar") && GlobMatch("f*", "foo");
    assert Filter(["foo"], "f*") == ["foo"];
    assert Filter(["bar", "foo"], "f*") == ["foo"];
  }

  lemma PlainSortExample()
    ensures Sort(["foobar", "foo"]) == ["foo", "foobar"]
  {
    assert StrLe("foo", "foobar");
    assert Sort(["foo"]) == ["foo"];
    assert Insert("foobar", ["foo"]) == ["foo", "foobar"];
  }

  /** With literal alternatives (no `*` or `?`), a brace group selects
      exactly the entries spelled like one of its variants. */
  lemma {:induction false} MatchesAnyLiterals(vs: seq<string>, x: string)
    requires forall i :: 0 <= i < |vs| ==> '*' !in vs[i] && '?' !in vs[i]
    ensures MatchesAny(vs, x) <==> x in vs
  {
    if |vs| > 0 {
      LiteralMatchesOnlyItself(vs[0], x);
      MatchesAnyLiterals(vs[1..], x);
      assert x in vs <==> x == vs[0] || x in vs[1..] by {
        assert vs == [vs[0]] + vs[1..];
      }
    }
  }

  lemma BraceLiteralMatch(entries: seq<string>, pattern: string)
    requires HasBraceGroup(pattern)
    requires forall i :: 0 <= i < |Variants(pattern)| ==> '*' !in Variants(pattern)[i] && '?' !in Variants(pattern)[i]
    ensures forall x :: x in MatchEntries(entries, pattern) <==> x in entries && x in Variants(pattern)
  {
    forall x ensures MatchesAny(Variants(pattern), x) <==> x in Variants(pattern) {
      MatchesAnyLiterals(Variants(pattern), x);
    }
  }
}
