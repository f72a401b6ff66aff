/** The discovery scenario of graphitedata/test.py (`testCreateNodes`): four
    metrics created one after another in an empty namespace table, then
    found by wildcard and brace-group queries. The metric names and queries
    are parameters pinned to their values by `requires`, so the solver
    works on their segments rather than on the whole strings. */
module FindScenario {
  import opened Base
  import opened Text
  import opened Glob
  import opened Schema
  import opened Namespace
  import opened Tree

  /** `find_nodes(FindQuery(query))` yields a node whose path is `metric`. */
  ghost predicate Finds(meta: MetaTable, query: string, metric: string) {
    exists n :: n in FindNodes(meta, query).nodes && n.path == metric
  }

  // ---------------------------------------------------------------------
  // Splitting the names

  /** A name of three dot-free segments splits into them. */
  lemma SplitThree(s: string, a: string, b: string, c: string)
    requires s == a + "." + b + "." + c && '.' !in a && '.' !in b && '.' !in c
    ensures Split(s, '.') == [a, b, c]
  {
    assert s == a + ['.'] + (b + ['.'] + c);
    SplitFirst(s, '.', a, b + ['.'] + c);
    SplitFirst(b + ['.'] + c, '.', b, c);
    SplitNone(c, '.');
  }

  /** A query of three dot-free, backslash-free patterns reaches
      `_find_paths` as those three patterns. */
  lemma SplitQuery(q: string, a: string, b: string, c: string)
    requires q == a + "." + b + "." + c && '.' !in a && '.' !in b && '.' !in c && '\\' !in q
    ensures Split(RemoveChar(q, '\\'), '.') == [a, b, c]
  {
    RemoveAbsent(q, '\\');
    SplitThree(q, a, b, c);
  }

  /** A segment `create` links as is: non-empty, without `.` or `_`. */
  predicate PlainSegment(s: string) {
    s != "" && '.' !in s && '_' !in s
  }

  /** A metric of three plain segments is a plain metric. */
  lemma PlainThree(m: string, a: string, b: string, c: string)
    requires m == a + "." + b + "." + c
    requires PlainSegment(a) && PlainSegment(b) && PlainSegment(c)
    ensures Segments(m) == [a, b, c] && PlainMetric(m) && '_' !in m
  {
    SplitThree(m, a, b, c);
  }

  // ---------------------------------------------------------------------
  // What the patterns select

  /** `*` selects every name. */
  lemma StarSelects(x: string)
    ensures Selects("*", x)
  {
    assert Find("*", '{') == -1;
    StarMatchesAll(x);
  }

  /** A pattern without wildcards or braces selects exactly itself. */
  lemma LiteralSelects(p: string)
    requires '*' !in p && '?' !in p && '{' !in p
    ensures Selects(p, p)
  {
    LiteralMatchesOnlyItself(p, p);
  }

  /** A pattern with one brace group around separator-free text expands
      into the text before it, each alternative, and the text after it. */
  lemma BraceGroupParts(p: string, pre: string, alts: string, post: string)
    requires p == pre + ['{'] + alts + ['}'] + post
    requires '{' !in pre && '}' !in pre && '{' !in alts && '}' !in alts
    ensures HasBraceGroup(p)
    ensures var parts := Split(alts, ',');
            Variants(p) == seq(|parts|, i requires 0 <= i < |parts| => pre + parts[i] + post)
  {
    var v1, v2 := |pre|, |pre| + 1 + |alts|;
    assert p[..v1] == pre && p[v1] == '{';
    FindAt(p, '{', v1);
    assert p[..v2] == pre + ['{'] + alts && p[v2] == '}';
    FindAt(p, '}', v2);
    assert p[v1 + 1..v2] == alts && p[v2 + 1..] == post;
  }

  /** A brace group of two alternatives expands into two patterns. */
  lemma BraceGroupTwo(p: string, pre: string, x: string, y: string, post: string)
    requires p == pre + ['{'] + (x + [','] + y) + ['}'] + post
    requires '{' !in pre && '}' !in pre && ',' !in x && ',' !in y
    requires '{' !in x && '}' !in x && '{' !in y && '}' !in y
    ensures HasBraceGroup(p) && Variants(p) == [pre + x + post, pre + y + post]
  {
    var alts := x + [','] + y;
    BraceGroupParts(p, pre, alts, post);
    SplitFirst(alts, ',', x, y);
    SplitNone(y, ',');
  }

  /** `branch{3,5}` expands into `branch3` and `branch5`. */
  lemma BranchVariants(p: string)
    requires p == "branch{3,5}"
    ensures HasBraceGroup(p) && Variants(p) == ["branch3", "branch5"]
  {
    assert p == "branch" + ['{'] + (['3'] + [','] + ['5']) + ['}'] + "";
    BraceGroupTwo(p, "branch", ['3'], ['5'], "");
    BranchNames();
  }

  lemma BranchNames()
    ensures "branch" + ['3'] + "" == "branch3" && "branch" + ['5'] + "" == "branch5"
  {
  }

  /** `branch{3,5}` selects `branch3` and `branch5`. */
  lemma BraceSelects(p: string)
    requires p == "branch{3,5}"
    ensures Selects(p, "branch3") && Selects(p, "branch5")
  {
    BranchVariants(p);
    var vs := Variants(p);
    LiteralMatchesOnlyItself("branch3", "branch3");
    LiteralMatchesOnlyItself("branch5", "branch5");
    assert vs[1..] == ["branch5"];
  }

  // ---------------------------------------------------------------------
  // Creating the metrics

  /** Every info record sits on a row whose key has at least `n` characters. */
  ghost predicate InfoKeysAtLeast(meta: MetaTable, n: nat) {
    forall key :: key in meta && meta[key].info.Some? ==> |key| >= n
  }

  /** Rows with keys shorter than every info row's hold no info, so
      neither do the rows above a metric as long as the bound. */
  lemma NoInfoAbove(meta: MetaTable, metric: string)
    requires InfoKeysAtLeast(meta, |MetricKey(metric)|)
    ensures forall i :: 0 <= i < |Segments(metric)| - 1 ==> GetRow(meta, PrefixKey(metric, i)).info.None?
  {
    forall i | 0 <= i < |Segments(metric)| - 1
      ensures GetRow(meta, PrefixKey(metric, i)).info.None?
    {
      PrefixAbove(metric, i);
    }
  }

  /** `create` puts its info record on the metric's own row only. */
  lemma CreatedInfoKeys(meta: MetaTable, metric: string, info: Info, n: nat)
    requires InfoKeysAtLeast(meta, n) && |MetricKey(metric)| >= n
    ensures InfoKeysAtLeast(Created(meta, metric, info), n)
  {
    var r := Created(meta, metric, info);
    CreatedFacts(meta, metric, info);
    forall key | key in r && r[key].info.Some?
      ensures |key| >= n
    {
      assert GetRow(r, key) == r[key];
      if key != MetricKey(metric) {
        assert GetRow(meta, key).info.Some?;
      }
    }
  }

  /** Metrics already filed stay filed under a `create` of a metric at
      least as long as each. */
  lemma CreatedKeepsFiled(meta: MetaTable, metric: string, info: Info, filed: seq<string>)
    requires forall m :: m in filed ==> Filed(meta, m) && |m| <= |metric|
    ensures forall m :: m in filed ==> Filed(Created(meta, metric, info), m)
  {
    forall m | m in filed
      ensures Filed(Created(meta, metric, info), m)
    {
      FiledKept(meta, m, metric, info);
    }
  }

  /** `create` of a plain metric no shorter than the metrics already filed,
      in a table whose info records all sit on rows at least as long as its
      own, keeps both tree invariants, files it and keeps the others filed. */
  lemma CreateStep(meta: MetaTable, metric: string, info: Info, filed: seq<string>)
    requires LinksResolve(meta) && CanonicalLinks(meta) && PlainMetric(metric)
    requires InfoKeysAtLeast(meta, |MetricKey(metric)|)
    requires forall m :: m in filed ==> Filed(meta, m) && |m| <= |metric|
    ensures var r := Created(meta, metric, info);
            && LinksResolve(r) && CanonicalLinks(r)
            && InfoKeysAtLeast(r, |MetricKey(metric)|)
            && forall m :: m in filed + [metric] ==> Filed(r, m)
  {
    CreatedLinksResolve(meta, metric, info);
    CreatedCanonical(meta, metric, info);
    NoInfoAbove(meta, metric);
    CreatedFiled(meta, metric, info);
    CreatedKeepsFiled(meta, metric, info, filed);
    CreatedInfoKeys(meta, metric, info, |MetricKey(metric)|);
  }

  lemma PlainSegments()
    ensures PlainSegment("branch1") && PlainSegment("branch2") && PlainSegment("branch3")
    ensures PlainSegment("branch5") && PlainSegment("metric1") && PlainSegment("metric2")
    ensures PlainSegment("metric4")
  {
  }

  lemma Metric1(m: string)
    requires m == "branch1.branch2.metric1"
    ensures Segments(m) == ["branch1", "branch2", "metric1"] && PlainMetric(m) && '_' !in m && |m| == 23
  {
    PlainSegments();
    assert m == "branch1" + "." + "branch2" + "." + "metric1";
    PlainThree(m, "branch1", "branch2", "metric1");
  }

  lemma Metric2(m: string)
    requires m == "branch1.branch2.metric2"
    ensures Segments(m) == ["branch1", "branch2", "metric2"] && PlainMetric(m) && '_' !in m && |m| == 23
  {
    PlainSegments();
    assert m == "branch1" + "." + "branch2" + "." + "metric2";
    PlainThree(m, "branch1", "branch2", "metric2");
  }

  lemma Metric3(m: string)
    requires m == "branch1.branch3.metric4"
    ensures Segments(m) == ["branch1", "branch3", "metric4"] && PlainMetric(m) && '_' !in m && |m| == 23
  {
    PlainSegments();
    assert m == "branch1" + "." + "branch3" + "." + "metric4";
    PlainThree(m, "branch1", "branch3", "metric4");
  }

  lemma Metric4(m: string)
    requires m == "branch2.branch5.metric1"
    ensures Segments(m) == ["branch2", "branch5", "metric1"] && PlainMetric(m) && '_' !in m && |m| == 23
  {
    PlainSegments();
    assert m == "branch2" + "." + "branch5" + "." + "metric1";
    PlainThree(m, "branch2", "branch5", "metric1");
  }

  /** The table after the four `create` calls keeps both invariants and has
      all four metrics filed. */
  lemma ScenarioTable(m1: string, m2: string, m3: string, m4: string, i1: Info, i2: Info, i3: Info, i4: Info)
    requires m1 == "branch1.branch2.metric1" && m2 == "branch1.branch2.metric2"
    requires m3 == "branch1.branch3.metric4" && m4 == "branch2.branch5.metric1"
    ensures var t := Created(Created(Created(Created(map[], m1, i1), m2, i2), m3, i3), m4, i4);
            && LinksResolve(t) && CanonicalLinks(t)
            && Filed(t, m1) && Filed(t, m2) && Filed(t, m3) && Filed(t, m4)
  {
    Metric1(m1);
    Metric2(m2);
    Metric3(m3);
    Metric4(m4);
    var t0: MetaTable := map[];
    EmptyTree();
    CreateStep(t0, m1, i1, []);
    var t1 := Created(t0, m1, i1);
    CreateStep(t1, m2, i2, [m1]);
    var t2 := Created(t1, m2, i2);
    CreateStep(t2, m3, i3, [m1, m2]);
    var t3 := Created(t2, m3, i3);
    CreateStep(t3, m4, i4, [m1, m2, m3]);
    var t := Created(t3, m4, i4);
    assert m1 in [m1, m2, m3] + [m4] && m2 in [m1, m2, m3] + [m4] && m3 in [m1, m2, m3] + [m4];
  }

  // ---------------------------------------------------------------------
  // Finding them

  /** A filed metric of three segments is found by a query of three
      patterns selecting them in turn. */
  lemma FoundThree(meta: MetaTable, metric: string, query: string, ps: seq<string>, segs: seq<string>)
    requires LinksResolve(meta) && CanonicalLinks(meta) && Filed(meta, metric) && '_' !in metric
    requires Segments(metric) == segs && Split(RemoveChar(query, '\\'), '.') == ps
    requires |ps| == |segs| == 3
    requires Selects(ps[0], segs[0]) && Selects(ps[1], segs[1]) && Selects(ps[2], segs[2])
    ensures Finds(meta, query, metric)
  {
    forall i | 0 <= i < |ps|
      ensures Selects(ps[i], Segments(metric)[i])
    {
      if i == 0 {
      } else if i == 1 {
      } else {
        assert i == 2;
      }
    }
    FiledFound(meta, metric, query);
  }

  /** The queries of the scenario as the patterns `_find_paths` receives. */
  lemma QueryAll(q: string)
    requires q == "*.*.*"
    ensures Split(RemoveChar(q, '\\'), '.') == ["*", "*", "*"]
  {
    QueryLiterals();
    assert q == "*" + "." + "*" + "." + "*";
    SplitQuery(q, "*", "*", "*");
  }

  lemma QueryTwo(q: string)
    requires q == "*.branch2.*"
    ensures Split(RemoveChar(q, '\\'), '.') == ["*", "branch2", "*"]
  {
    QueryLiterals();
    assert q == "*" + "." + "branch2" + "." + "*";
    SplitQuery(q, "*", "branch2", "*");
  }

  lemma QueryThreeFive(q: string)
    requires q == "*.branch{3,5}.*"
    ensures Split(RemoveChar(q, '\\'), '.') == ["*", "branch{3,5}", "*"]
  {
    QueryLiterals();
    assert q == "*" + "." + "branch{3,5}" + "." + "*";
    SplitQuery(q, "*", "branch{3,5}", "*");
  }

  lemma QueryLiterals()
    ensures '.' !in "*" && '.' !in "branch2" && '.' !in "branch{3,5}"
    ensures '\\' !in "*.*.*" && '\\' !in "*.branch2.*" && '\\' !in "*.branch{3,5}.*"
  {
  }

  lemma Branch2Selects()
    ensures Selects("branch2", "branch2")
  {
    LiteralSelects("branch2");
  }

  lemma Branches3And5Selected()
    ensures Selects("branch{3,5}", "branch3") && Selects("branch{3,5}", "branch5")
  {
    BraceSelects("branch{3,5}");
  }

  lemma QueryStar(q: string)
    requires q == "*"
    ensures Split(RemoveChar(q, '\\'), '.') == ["*"]
  {
    RemoveAbsent(q, '\\');
    SplitNone(q, '.');
  }

  /** A filed one-segment name is found by the query `*`. */
  lemma FoundByStar(meta: MetaTable, name: string, query: string)
    requires LinksResolve(meta) && CanonicalLinks(meta) && Filed(meta, name) && '_' !in name
    requires Segments(name) == [name] && Split(RemoveChar(query, '\\'), '.') == ["*"]
    ensures Finds(meta, query, name)
  {
    StarSelects(name);
    assert ["*"][0] == "*";
    FiledFound(meta, name, query);
  }

  /** `*` finds the two top-level branches. */
  lemma FindTopBranches(t: MetaTable, m1: string, m4: string, q: string)
    requires LinksResolve(t) && CanonicalLinks(t) && Filed(t, m1) && Filed(t, m4)
    requires Segments(m1) == ["branch1", "branch2", "metric1"]
    requires Segments(m4) == ["branch2", "branch5", "metric1"]
    requires Split(RemoveChar(q, '\\'), '.') == ["*"]
    ensures Finds(t, q, "branch1") && Finds(t, q, "branch2")
  {
    FiledTop(t, m1);
    FoundByStar(t, Segments(m1)[0], q);
    FiledTop(t, m4);
    FoundByStar(t, Segments(m4)[0], q);
  }

  /** `*.*.*` finds all four metrics. */
  lemma FindAllMetrics(t: MetaTable, m1: string, m2: string, m3: string, m4: string, q: string)
    requires LinksResolve(t) && CanonicalLinks(t)
    requires Filed(t, m1) && Filed(t, m2) && Filed(t, m3) && Filed(t, m4)
    requires Segments(m1) == ["branch1", "branch2", "metric1"] && '_' !in m1
    requires Segments(m2) == ["branch1", "branch2", "metric2"] && '_' !in m2
    requires Segments(m3) == ["branch1", "branch3", "metric4"] && '_' !in m3
    requires Segments(m4) == ["branch2", "branch5", "metric1"] && '_' !in m4
    requires Split(RemoveChar(q, '\\'), '.') == ["*", "*", "*"]
    ensures Finds(t, q, m1) && Finds(t, q, m2) && Finds(t, q, m3) && Finds(t, q, m4)
  {
    var stars := ["*", "*", "*"];
    StarSelects("branch1");
    StarSelects("branch2");
    StarSelects("branch3");
    StarSelects("branch5");
    StarSelects("metric1");
    StarSelects("metric2");
    StarSelects("metric4");
    FoundThree(t, m1, q, stars, ["branch1", "branch2", "metric1"]);
    FoundThree(t, m2, q, stars, ["branch1", "branch2", "metric2"]);
    FoundThree(t, m3, q, stars, ["branch1", "branch3", "metric4"]);
    FoundThree(t, m4, q, stars, ["branch2", "branch5", "metric1"]);
  }

  /** `*.branch2.*` finds the two metrics under `branch1.branch2`. */
  lemma FindBranch2(t: MetaTable, m1: string, m2: string, q: string)
    requires LinksResolve(t) && CanonicalLinks(t) && Filed(t, m1) && Filed(t, m2)
    requires Segments(m1) == ["branch1", "branch2", "metric1"] && '_' !in m1
    requires Segments(m2) == ["branch1", "branch2", "metric2"] && '_' !in m2
    requires Split(RemoveChar(q, '\\'), '.') == ["*", "branch2", "*"]
    ensures Finds(t, q, m1) && Finds(t, q, m2)
  {
    var ps := ["*", "branch2", "*"];
    StarSelects("branch1");
    StarSelects("metric1");
    StarSelects("metric2");
    Branch2Selects();
    FoundThree(t, m1, q, ps, ["branch1", "branch2", "metric1"]);
    FoundThree(t, m2, q, ps, ["branch1", "branch2", "metric2"]);
  }

  /** `*.branch{3,5}.*` finds the metrics under `branch3` and `branch5`. */
  lemma FindBranches3And5(t: MetaTable, m3: string, m4: string, q: string)
    requires LinksResolve(t) && CanonicalLinks(t) && Filed(t, m3) && Filed(t, m4)
    requires Segments(m3) == ["branch1", "branch3", "metric4"] && '_' !in m3
    requires Segments(m4) == ["branch2", "branch5", "metric1"] && '_' !in m4
    requires Split(RemoveChar(q, '\\'), '.') == ["*", "branch{3,5}", "*"]
    ensures Finds(t, q, m3) && Finds(t, q, m4)
  {
    var ps := ["*", "branch{3,5}", "*"];
    StarSelects("branch1");
    StarSelects("branch2");
    StarSelects("metric1");
    StarSelects("metric4");
    Branches3And5Selected();
    FoundThree(t, m3, q, ps, ["branch1", "branch3", "metric4"]);
    FoundThree(t, m4, q, ps, ["branch2", "branch5", "metric1"]);
  }

  /** `testCreateNodes`: after the four `create` calls on an empty table,
      `*` finds the branches `branch1` and `branch2`, `*.*.*` finds all four metrics, `*.branch2.*` the two under
      `branch1.branch2`, and `*.branch{3,5}.*` the ones under `branch3` and
      `branch5`; none of the four searches raises. */
  lemma TestCreateNodes(m1: string, m2: string, m3: string, m4: string, i1: Info, i2: Info, i3: Info, i4: Info,
                        star: string, all: string, two: string, threeFive: string)
    requires m1 == "branch1.branch2.metric1" && m2 == "branch1.branch2.metric2"
    requires m3 == "branch1.branch3.metric4" && m4 == "branch2.branch5.metric1"
    requires star == "*" && all == "*.*.*" && two == "*.branch2.*" && threeFive == "*.branch{3,5}.*"
    ensures var t := Created(Created(Created(Created(map[], m1, i1), m2, i2), m3, i3), m4, i4);
            && Finds(t, star, "branch1") && Finds(t, star, "branch2")
            && Finds(t, all, m1) && Finds(t, all, m2) && Finds(t, all, m3) && Finds(t, all, m4)
            && Finds(t, two, m1) && Finds(t, two, m2)
            && Finds(t, threeFive, m3) && Finds(t, threeFive, m4)
    ensures var t := Created(Created(Created(Created(map[], m1, i1), m2, i2), m3, i3), m4, i4);
            && FindNodes(t, star).error.None? && FindNodes(t, all).error.None?
            && FindNodes(t, two).error.None? && FindNodes(t, threeFive).error.None?
  {
    var t := Created(Created(Created(Created(map[], m1, i1), m2, i2), m3, i3), m4, i4);
    ScenarioTable(m1, m2, m3, m4, i1, i2, i3, i4);
    Metric1(m1);
    Metric2(m2);
    Metric3(m3);
    Metric4(m4);
    QueryStar(star);
    QueryAll(all);
    QueryTwo(two);
    QueryThreeFive(threeFive);
    FindTopBranches(t, m1, m4, star);
    FindAllMetrics(t, m1, m2, m3, m4, all);
    FindBranch2(t, m1, m2, two);
    FindBranches3And5(t, m3, m4, threeFive);
    FindNodesNoError(t, star);
    FindNodesNoError(t, all);
    FindNodesNoError(t, two);
    FindNodesNoError(t, threeFive);
  }
}
