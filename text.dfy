/** The few Python string operations the backend relies on: str.find,
    str.split with a one-character separator, str.replace of a character by
    nothing, and the byte-wise ordering that list.sort() and HBase's column
    order use. */
module Text {
  import opened Base

  /** str.find(c): the first index of `c` in `s`, or -1. */
  function Find(s: string, c: char): (r: int)
    ensures -1 <= r < |s|
    ensures r == -1 <==> c !in s
    ensures r >= 0 ==> s[r] == c && c !in s[..r]
  {
    if |s| == 0 then -1
    else if s[0] == c then 0
    else
      var k := Find(s[1..], c);
      if k == -1 then -1
      else
        assert s[..k + 1] == [s[0]] + s[1..][..k];
        k + 1
  }

  /** str.split(sep): the maximal runs between separators, always at least one. */
  function Split(s: string, sep: char): (parts: seq<string>)
    ensures |parts| >= 1
    ensures forall i :: 0 <= i < |parts| ==> sep !in parts[i]
    decreases |s|
  {
    var k := Find(s, sep);
    if k == -1 then [s] else [s[..k]] + Split(s[k + 1..], sep)
  }

  /** sep.join(parts) */
  function Join(parts: seq<string>, sep: char): string {
    if |parts| == 0 then ""
    else if |parts| == 1 then parts[0]
    else Join(parts[..|parts| - 1], sep) + [sep] + parts[|parts| - 1]
  }

  lemma {:induction false} JoinCons(head: string, tail: seq<string>, sep: char)
    requires |tail| >= 1
    ensures Join([head] + tail, sep) == head + [sep] + Join(tail, sep)
    decreases |tail|
  {
    var whole := [head] + tail;
    if |tail| == 1 {
      assert whole[..1] == [head];
    } else {
      JoinCons(head, tail[..|tail| - 1], sep);
      assert whole[..|whole| - 1] == [head] + tail[..|tail| - 1];
    }
  }

  /** Splitting loses nothing: joining the parts with the separator gives back the string. */
  lemma {:induction false} JoinSplit(s: string, sep: char)
    ensures Join(Split(s, sep), sep) == s
    decreases |s|
  {
    var k := Find(s, sep);
    if k != -1 {
      JoinSplit(s[k + 1..], sep);
      JoinCons(s[..k], Split(s[k + 1..], sep), sep);
      Around(s, k);
    }
  }

  /** Joining parts that hold no separator splits back into those parts. */
  lemma {:induction false} SplitJoin(parts: seq<string>, sep: char)
    requires |parts| >= 1 && forall i :: 0 <= i < |parts| ==> sep !in parts[i]
    ensures Split(Join(parts, sep), sep) == parts
    decreases |parts|
  {
    if |parts| == 1 {
      SplitNone(parts[0], sep);
    } else {
      var tail := parts[1..];
      assert [parts[0]] + tail == parts;
      JoinCons(parts[0], tail, sep);
      SplitJoin(tail, sep);
      SplitFirst(Join(parts, sep), sep, parts[0], Join(tail, sep));
    }
  }

  /** A character other than the separator occurs in a join only where it
      occurs in a part. */
  lemma {:induction false} JoinFree(parts: seq<string>, sep: char, c: char)
    requires c != sep && forall i :: 0 <= i < |parts| ==> c !in parts[i]
    ensures c !in Join(parts, sep)
    decreases |parts|
  {
    if |parts| > 1 {
      JoinFree(parts[..|parts| - 1], sep, c);
    }
  }

  /** A string is the text before position `k`, the character at `k`, and the text after it. */
  lemma Around(s: string, k: nat)
    requires k < |s|
    ensures s == s[..k] + [s[k]] + s[k + 1..]
  {
  }

  /** The first occurrence found where it is. */
  lemma FindAt(s: string, c: char, k: nat)
    requires k < |s| && s[k] == c && c !in s[..k]
    ensures Find(s, c) == k
  {
  }

  /** Splitting at the first separator. */
  lemma SplitAt(s: string, sep: char, k: nat)
    requires k < |s| && s[k] == sep && sep !in s[..k]
    ensures Split(s, sep) == [s[..k]] + Split(s[k + 1..], sep)
  {
    FindAt(s, sep, k);
  }

  /** A string without the separator is its only part. */
  lemma SplitNone(s: string, sep: char)
    requires sep !in s
    ensures Split(s, sep) == [s]
  {
  }

  /** A name starting with a separator-free segment splits into that
      segment and the splits of the rest. */
  lemma SplitFirst(s: string, sep: char, a: string, t: string)
    requires s == a + [sep] + t && sep !in a
    ensures Split(s, sep) == [a] + Split(t, sep)
  {
    assert s[..|a|] == a && s[|a|] == sep && s[|a| + 1..] == t;
    SplitAt(s, sep, |a|);
  }

  /** s.replace(c, '') */
  function RemoveChar(s: string, c: char): (r: string)
    ensures c !in r
    ensures forall x :: x in r <==> x in s && x != c
  {
    if |s| == 0 then ""
    else (if s[0] == c then "" else [s[0]]) + RemoveChar(s[1..], c)
  }

  /** Removing a character that does not occur changes nothing. */
  lemma {:induction false} RemoveAbsent(s: string, c: char)
    requires c !in s
    ensures RemoveChar(s, c) == s
  {
    if |s| > 0 {
      RemoveAbsent(s[1..], c);
      assert s == [s[0]] + s[1..];
    }
  }

  predicate StartsWith(s: string, prefix: string) {
    |prefix| <= |s| && s[..|prefix|] == prefix
  }

  /** Python 2 byte-string ordering: lexicographic by character code, a
      proper prefix before its extensions. */
  predicate StrLe(a: string, b: string) {
    |a| == 0 || (|b| > 0 && (a[0] < b[0] || (a[0] == b[0] && StrLe(a[1..], b[1..]))))
  }

  lemma {:induction false} StrLeTotal(a: string, b: string)
    ensures StrLe(a, b) || StrLe(b, a)
  {
    if |a| > 0 && |b| > 0 && a[0] == b[0] {
      StrLeTotal(a[1..], b[1..]);
    }
  }

  lemma {:induction false} StrLeAntisymmetric(a: string, b: string)
    requires StrLe(a, b) && StrLe(b, a)
    ensures a == b
  {
    if |a| > 0 {
      StrLeAntisymmetric(a[1..], b[1..]);
      assert a == [a[0]] + a[1..] && b == [b[0]] + b[1..];
    }
  }

  lemma {:induction false} StrLeTransitive(a: string, b: string, c: string)
    requires StrLe(a, b) && StrLe(b, c)
    ensures StrLe(a, c)
  {
    if |a| > 0 && a[0] == b[0] && b[0] == c[0] {
      StrLeTransitive(a[1..], b[1..], c[1..]);
    }
  }

  /** A string sorts before every extension of it. */
  lemma {:induction false} StrLePrefix(a: string, c: string)
    ensures StrLe(a, a + c)
  {
    if |a| > 0 {
      assert (a + c)[1..] == a[1..] + c;
      StrLePrefix(a[1..], c);
    }
  }

  lemma StrLeReflexive(a: string)
    ensures StrLe(a, a)
  {
  }

  predicate Sorted(s: seq<string>) {
    forall i, j :: 0 <= i < j < |s| ==> StrLe(s[i], s[j])
  }

  predicate IsLeast(m: string, s: set<string>) {
    m in s && forall x :: x in s ==> StrLe(m, x)
  }

  lemma {:induction false} LeastExists(s: set<string>)
    requires s != {}
    ensures exists m :: IsLeast(m, s)
    decreases |s|
  {
    var x :| x in s;
    if s != {x} {
      LeastExists(s - {x});
      var m :| IsLeast(m, s - {x});
      StrLeTotal(m, x);
      if StrLe(m, x) {
        assert IsLeast(m, s);
      } else {
        forall y | y in s ensures StrLe(x, y) {
          if y != x { StrLeTransitive(x, m, y); } else { StrLeReflexive(x); }
        }
        assert IsLeast(x, s);
      }
    } else {
      StrLeReflexive(x);
      assert IsLeast(x, s);
    }
  }

  lemma LeastUnique(m: string, n: string, s: set<string>)
    requires IsLeast(m, s) && IsLeast(n, s)
    ensures m == n
  {
    StrLeAntisymmetric(m, n);
  }

  /** The elements of `s` in ascending order: how HBase hands back the
      columns of a row. */
  ghost function SortedSet(s: set<string>): (r: seq<string>)
    ensures forall x :: x in r <==> x in s
    decreases |s|
  {
    if s == {} then []
    else
      LeastExists(s);
      var m :| IsLeast(m, s);
      [m] + SortedSet(s - {m})
  }

  /** The listing holds every element once, in ascending order. */
  lemma {:induction false} SortedSetSorted(s: set<string>)
    ensures var r := SortedSet(s);
            |r| == |s| && Distinct(r) && Sorted(r)
    decreases |s|
  {
    if s != {} {
      LeastExists(s);
      var m :| IsLeast(m, s);
      SortedSetCons(m, s);
      var rest := SortedSet(s - {m});
      SortedSetSorted(s - {m});
      forall j | 0 <= j < |rest| ensures StrLe(m, rest[j]) && m != rest[j] {
        assert rest[j] in rest;
      }
      SortedCons(m, rest);
    }
  }

  lemma SortedCons(m: string, rest: seq<string>)
    requires Distinct(rest) && Sorted(rest)
    requires forall j :: 0 <= j < |rest| ==> StrLe(m, rest[j]) && m != rest[j]
    ensures Distinct([m] + rest) && Sorted([m] + rest)
  {
    forall i, j | 0 <= i < j < |[m] + rest|
      ensures ([m] + rest)[i] != ([m] + rest)[j] && StrLe(([m] + rest)[i], ([m] + rest)[j])
    {
      if i > 0 {
        assert ([m] + rest)[i] == rest[i - 1];
      }
      assert ([m] + rest)[j] == rest[j - 1];
    }
  }

  lemma SortedSetCons(m: string, s: set<string>)
    requires IsLeast(m, s)
    ensures SortedSet(s) == [m] + SortedSet(s - {m})
  {
    LeastExists(s);
    var m' :| IsLeast(m', s) && SortedSet(s) == [m'] + SortedSet(s - {m'});
    LeastUnique(m, m', s);
  }

  /** Lists a row's column names the way HBase returns them. */
  method SortSet(s: set<string>) returns (r: seq<string>)
    ensures r == SortedSet(s)
  {
    r := [];
    var rest := s;
    while rest != {}
      invariant r + SortedSet(rest) == SortedSet(s)
      decreases |rest|
    {
      LeastExists(rest);
      var m :| m in rest && IsLeast(m, rest);
      SortedSetCons(m, rest);
      AppendAssociative(r, [m], SortedSet(rest - {m}));
      assert |rest - {m}| < |rest|;
      r, rest := r + [m], rest - {m};
    }
  }

  /** Inserts `x` into sorted `s` after every element not greater than it. */
  function Insert(x: string, s: seq<string>): (r: seq<string>)
    requires Sorted(s)
    ensures multiset(r) == multiset(s) + multiset{x}
    ensures Sorted(r)
  {
    if |s| == 0 then [x]
    else if StrLe(s[0], x) then
      var t := Insert(x, s[1..]);
      assert s == [s[0]] + s[1..];
      InsertSortedHead(s[0], x, s[1..], t);
      [s[0]] + t
    else
      InsertSortedFront(x, s);
      [x] + s
  }

  lemma InsertSortedFront(x: string, s: seq<string>)
    requires Sorted(s) && |s| > 0 && !StrLe(s[0], x)
    ensures Sorted([x] + s)
  {
    StrLeTotal(s[0], x);
    forall i, j | 0 <= i < j < |[x] + s| ensures StrLe(([x] + s)[i], ([x] + s)[j]) {
      if i == 0 && j > 1 { StrLeTransitive(x, s[0], s[j - 1]); }
    }
  }

  lemma InsertSortedHead(h: string, x: string, tail: seq<string>, t: seq<string>)
    requires StrLe(h, x) && Sorted([h] + tail) && Sorted(t)
    requires multiset(t) == multiset(tail) + multiset{x}
    ensures Sorted([h] + t)
  {
    forall j | 0 <= j < |t| ensures StrLe(h, t[j]) {
      assert t[j] in multiset(t);
      if t[j] != x {
        assert t[j] in multiset(tail);
        var k :| 0 <= k < |tail| && tail[k] == t[j];
        assert ([h] + tail)[0] == h && ([h] + tail)[k + 1] == tail[k];
      }
    }
  }

  /** list.sort() on byte strings. */
  function Sort(s: seq<string>): (r: seq<string>)
    ensures Sorted(r) && multiset(r) == multiset(s)
  {
    if |s| == 0 then []
    else
      assert s == [s[0]] + s[1..];
      Insert(s[0], Sort(s[1..]))
  }
}
