/** The namespace table (hbasedb.py, the layout comment at its top,
    `create`'s link loop, `exists`, `info` and `_find_paths`). The root row
    `ROOT` and the branch rows hold one `cf:c_<part>` column per child,
    valued with the child's row key; a metric's row `m_<path>` holds its
    info record in `cf:INFO`. */
module Namespace {
  import opened Base
  import opened Text
  import opened Glob
  import opened Schema

  /** A row of the namespace table: the `cf:INFO` cell, when there is one,
      and every other cell by column name. */
  datatype Row = Row(info: Option<Info>, cells: map<string, string>)

  type MetaTable = map<string, Row>

  const RootKey := "ROOT"
  const LinkPrefix := "cf:c_"

  /** `"m_" + metric`: the row key of a path. */
  function MetricKey(metric: string): string {
    "m_" + metric
  }

  /** `getRow(key)` returns a row: the key has at least one cell. */
  predicate RowExists(meta: MetaTable, key: string) {
    key in meta && (meta[key].info.Some? || meta[key].cells != map[])
  }

  /** The row under `key`, empty when absent. */
  function GetRow(meta: MetaTable, key: string): Row {
    if key in meta then meta[key] else Row(None, map[])
  }

  // ---------------------------------------------------------------------
  // create: one parent-to-child link per path segment

  /** `priorParts` after the first `i` segments: the segments joined with
      dots, except that an empty accumulator is restarted by the next
      segment. */
  function Prior(parts: seq<string>, i: nat): string
    requires i <= |parts|
  {
    if i == 0 then ""
    else
      var p := Prior(parts, i - 1);
      if p == "" then parts[i - 1] else p + "." + parts[i - 1]
  }

  /** One pass of the link loop: the parent row, the segment, the child row key. */
  datatype Link = Link(parent: string, part: string, child: string)

  /** The link the loop handles for segment `i`: a parent of ROOT while the
      accumulator is empty, `m_<prior>` after. */
  function LinkAt(parts: seq<string>, i: nat): Link
    requires i < |parts|
  {
    var p := Prior(parts, i);
    if p == "" then Link(RootKey, parts[i], "m_" + parts[i])
    else Link("m_" + p, parts[i], "m_" + p + "." + parts[i])
  }

  function Links(parts: seq<string>): (r: seq<Link>)
    ensures |r| == |parts|
  {
    seq(|parts|, i requires 0 <= i < |parts| => LinkAt(parts, i))
  }

  /** `metric.split('.')` */
  function Segments(metric: string): seq<string> {
    Split(metric, '.')
  }

  lemma {:induction false} PriorIsJoin(parts: seq<string>, i: nat)
    requires 1 <= i <= |parts| && parts[0] != ""
    ensures Prior(parts, i) == Join(parts[..i], '.') && Prior(parts, i) != ""
  {
    if i > 1 {
      PriorIsJoin(parts, i - 1);
      assert parts[..i][..i - 1] == parts[..i - 1];
    }
  }

  /** The links of a metric whose first segment is not empty: the first
      segment hangs under ROOT, every later segment under `m_` followed by
      the path up to it, each child row key is `m_` followed by the path
      through its segment, and the last child is the metric's own row. */
  lemma MetricLinks(metric: string)
    requires Segments(metric)[0] != ""
    ensures var parts := Segments(metric);
            var links := Links(parts);
            && links[0] == Link(RootKey, parts[0], MetricKey(parts[0]))
            && (forall i :: 1 <= i < |parts| ==> links[i].parent == MetricKey(Join(parts[..i], '.')))
            && (forall i :: 0 <= i < |parts| ==> links[i].part == parts[i] && links[i].child == MetricKey(Join(parts[..i + 1], '.')))
            && links[|parts| - 1].child == MetricKey(metric)
  {
    var parts := Segments(metric);
    var links := Links(parts);
    forall i | 0 <= i < |parts|
      ensures links[i].part == parts[i] && links[i].child == MetricKey(Join(parts[..i + 1], '.'))
      ensures i >= 1 ==> links[i].parent == MetricKey(Join(parts[..i], '.'))
    {
      LinkAtFacts(parts, i);
    }
    JoinSplit(metric, '.');
    assert parts[..|parts|] == parts;
  }

  lemma LinkAtFacts(parts: seq<string>, i: nat)
    requires i < |parts| && parts[0] != ""
    ensures LinkAt(parts, i).part == parts[i]
    ensures LinkAt(parts, i).child == MetricKey(Join(parts[..i + 1], '.'))
    ensures i >= 1 ==> LinkAt(parts, i).parent == MetricKey(Join(parts[..i], '.'))
    ensures i == 0 ==> LinkAt(parts, i) == Link(RootKey, parts[0], MetricKey(parts[0]))
  {
    PriorIsJoin(parts, i + 1);
    if i >= 1 {
      PriorIsJoin(parts, i);
    } else {
      assert parts[..1] == [parts[0]];
    }
  }

  /** The parent already has the link column. */
  predicate HasLink(meta: MetaTable, l: Link) {
    LinkPrefix + l.part in GetRow(meta, l.parent).cells
  }

  /** `if len(get(parent, "cf:c_" + part)) == 0: mutateRow(parent, "cf:c_" + part := child)` */
  function AddLink(meta: MetaTable, l: Link): MetaTable {
    if HasLink(meta, l) then meta
    else
      var row := GetRow(meta, l.parent);
      meta[l.parent := row.(cells := row.cells[LinkPrefix + l.part := l.child])]
  }

  /** The link loop over `links`, in order. */
  function EnsureLinks(meta: MetaTable, links: seq<Link>): MetaTable {
    if |links| == 0 then meta
    else AddLink(EnsureLinks(meta, links[..|links| - 1]), links[|links| - 1])
  }

  lemma EnsureLinksNext(meta: MetaTable, links: seq<Link>, j: nat)
    requires j < |links|
    ensures EnsureLinks(meta, links[..j + 1]) == AddLink(EnsureLinks(meta, links[..j]), links[j])
  {
    assert links[..j + 1][..j] == links[..j];
  }

  /** The link loop after its first `j` passes over `parts`. */
  function LinkedUpTo(meta: MetaTable, parts: seq<string>, j: nat): MetaTable
    requires j <= |parts|
  {
    if j == 0 then meta else AddLink(LinkedUpTo(meta, parts, j - 1), LinkAt(parts, j - 1))
  }

  lemma {:induction false} LinkedUpToLinks(meta: MetaTable, parts: seq<string>, j: nat)
    requires j <= |parts|
    ensures LinkedUpTo(meta, parts, j) == EnsureLinks(meta, Links(parts)[..j])
  {
    if j > 0 {
      LinkedUpToLinks(meta, parts, j - 1);
      EnsureLinksNext(meta, Links(parts), j - 1);
    }
  }

  /** `meta2` keeps every cell of `meta` and every info record as it was. */
  ghost predicate Extends(meta: MetaTable, meta2: MetaTable) {
    && (forall key :: key in meta ==> key in meta2 && GetRow(meta2, key).info == meta[key].info)
    && (forall key :: key !in meta ==> GetRow(meta2, key).info == None)
    && (forall key, col :: key in meta && col in meta[key].cells ==>
          col in GetRow(meta2, key).cells && GetRow(meta2, key).cells[col] == meta[key].cells[col])
  }

  lemma ExtendsTransitive(m1: MetaTable, m2: MetaTable, m3: MetaTable)
    requires Extends(m1, m2) && Extends(m2, m3)
    ensures Extends(m1, m3)
  {
  }

  /** The link loop never overwrites a cell or an info record: a link
      column that exists is left alone, whatever it points to. */
  lemma {:induction false} EnsureLinksExtends(meta: MetaTable, links: seq<Link>)
    ensures Extends(meta, EnsureLinks(meta, links))
  {
    if |links| > 0 {
      var before := EnsureLinks(meta, links[..|links| - 1]);
      EnsureLinksExtends(meta, links[..|links| - 1]);
      ExtendsTransitive(meta, before, AddLink(before, links[|links| - 1]));
    }
  }

  /** After the loop, every parent has the link column of its segment. */
  lemma {:induction false} EnsureLinksPresent(meta: MetaTable, links: seq<Link>)
    ensures forall i :: 0 <= i < |links| ==> HasLink(EnsureLinks(meta, links), links[i])
  {
    if |links| > 0 {
      var n := |links| - 1;
      var before := EnsureLinks(meta, links[..n]);
      EnsureLinksPresent(meta, links[..n]);
      forall i | 0 <= i < n ensures HasLink(EnsureLinks(meta, links), links[i]) {
        assert links[..n][i] == links[i];
        assert HasLink(before, links[i]);
      }
    }
  }

  /** With every link column already present, the loop writes nothing. */
  lemma {:induction false} EnsureLinksNoop(meta: MetaTable, links: seq<Link>)
    requires forall i :: 0 <= i < |links| ==> HasLink(meta, links[i])
    ensures EnsureLinks(meta, links) == meta
  {
    if |links| > 0 {
      var n := |links| - 1;
      assert forall i :: 0 <= i < n ==> links[..n][i] == links[i];
      EnsureLinksNoop(meta, links[..n]);
    }
  }

  /** Running the link loop again for the same path writes no new link. */
  lemma EnsureLinksIdempotent(meta: MetaTable, links: seq<Link>)
    ensures EnsureLinks(EnsureLinks(meta, links), links) == EnsureLinks(meta, links)
  {
    EnsureLinksPresent(meta, links);
    EnsureLinksNoop(EnsureLinks(meta, links), links);
  }

  /** A cell the loop adds is the link of one of its steps, valued with
      that step's child row key. */
  lemma {:induction false} EnsureLinksNew(meta: MetaTable, links: seq<Link>, key: string, col: string)
    requires col in GetRow(EnsureLinks(meta, links), key).cells && col !in GetRow(meta, key).cells
    ensures exists i :: 0 <= i < |links| && links[i].parent == key && col == LinkPrefix + links[i].part &&
                        GetRow(EnsureLinks(meta, links), key).cells[col] == links[i].child
  {
    var n := |links| - 1;
    var before := EnsureLinks(meta, links[..n]);
    if col in GetRow(before, key).cells {
      EnsureLinksNew(meta, links[..n], key, col);
      var i :| 0 <= i < n && links[..n][i].parent == key && col == LinkPrefix + links[..n][i].part &&
               GetRow(before, key).cells[col] == links[..n][i].child;
      assert links[i] == links[..n][i];
    } else {
      assert links[n].parent == key && col == LinkPrefix + links[n].part;
    }
  }

  /** `mutateRow(key, [cf:INFO := info])`: the row's other cells stay. */
  function WriteInfo(meta: MetaTable, key: string, info: Info): MetaTable {
    meta[key := GetRow(meta, key).(info := Some(info))]
  }

  /** The namespace table after `create(metric, ...)` recorded `info`: the
      metric's info cell written, then the link loop over its path. */
  function Created(meta: MetaTable, metric: string, info: Info): MetaTable {
    EnsureLinks(WriteInfo(meta, MetricKey(metric), info), Links(Segments(metric)))
  }

  /** After `create`, the metric's row holds the new info, every other row
      keeps its info and its cells, and every segment of the path is linked
      from its parent. */
  lemma CreatedFacts(meta: MetaTable, metric: string, info: Info)
    ensures var r := Created(meta, metric, info);
            && GetRow(r, MetricKey(metric)).info == Some(info)
            && RowExists(r, MetricKey(metric))
            && (forall key :: key != MetricKey(metric) ==> GetRow(r, key).info == GetRow(meta, key).info)
            && (forall key, col :: key in meta && col in meta[key].cells ==>
                  col in GetRow(r, key).cells && GetRow(r, key).cells[col] == meta[key].cells[col])
            && (forall i :: 0 <= i < |Segments(metric)| ==> HasLink(r, Links(Segments(metric))[i]))
  {
    var m1 := WriteInfo(meta, MetricKey(metric), info);
    var links := Links(Segments(metric));
    EnsureLinksExtends(m1, links);
    EnsureLinksPresent(m1, links);
    var r := Created(meta, metric, info);
    forall key | key != MetricKey(metric) ensures GetRow(r, key).info == GetRow(meta, key).info {
      if key in m1 {
        assert key in meta;
      }
    }
  }

  // ---------------------------------------------------------------------
  // _find_paths: recursive descent over the link columns

  /** `s.split("_", 2)[1]`, None where Python raises IndexError. */
  function SecondField(s: string): Option<string> {
    var ps := Split(s, '_');
    if |ps| < 2 then None else Some(ps[1])
  }

  /** A name without `_` survives the prefix being popped off. */
  lemma SecondFieldOfPrefixed(prefix: string, name: string)
    requires |prefix| > 0 && prefix[|prefix| - 1] == '_' && '_' !in prefix[..|prefix| - 1] && '_' !in name
    ensures SecondField(prefix + name) == Some(name)
  {
    var s := prefix + name;
    var k := |prefix| - 1;
    assert s[..k] == prefix[..k];
    assert s[k] == '_';
    assert Find(s, '_') == k;
    assert s[k + 1..] == name;
    assert Split(s, '_') == [s[..k]] + Split(name, '_');
    assert Split(name, '_') == [name];
  }

  /** Every `cf:c_` column has a second field. */
  lemma SecondFieldOfLinkColumn(col: string)
    requires StartsWith(col, LinkPrefix)
    ensures SecondField(col).Some?
  {
    assert col[..5] == LinkPrefix;
    assert col[4] == '_' && '_' !in col[..4];
  }

  /** The (name, child row key) pairs of the `cf:c_` columns among `cols`,
      in that order: what the loop building `subnodes` inserts. */
  function LinkPairs(cols: seq<string>, cells: map<string, string>): seq<(string, string)>
    requires forall i :: 0 <= i < |cols| ==> cols[i] in cells
  {
    if |cols| == 0 then []
    else
      var col := cols[|cols| - 1];
      var init := LinkPairs(cols[..|cols| - 1], cells);
      if StartsWith(col, LinkPrefix) then
        SecondFieldOfLinkColumn(col);
        init + [(SecondField(col).value, cells[col])]
      else init
  }

  /** One more column of the loop: a link column adds its pair at the end. */
  lemma LinkPairsNext(cols: seq<string>, cells: map<string, string>, i: nat)
    requires i < |cols| && forall j :: 0 <= j < |cols| ==> cols[j] in cells
    ensures !StartsWith(cols[i], LinkPrefix) ==> LinkPairs(cols[..i + 1], cells) == LinkPairs(cols[..i], cells)
    ensures StartsWith(cols[i], LinkPrefix) ==>
              SecondField(cols[i]).Some? &&
              LinkPairs(cols[..i + 1], cells) == LinkPairs(cols[..i], cells) + [(SecondField(cols[i]).value, cells[cols[i]])]
  {
    assert cols[..i + 1][..i] == cols[..i] && cols[..i + 1][i] == cols[i];
    if StartsWith(cols[i], LinkPrefix) {
      SecondFieldOfLinkColumn(cols[i]);
    }
  }

  /** The `subnodes` dict of a row, as the (name, row key) pairs inserted
      into it, in the order HBase lists the row's columns (ascending). */
  ghost function Subnodes(row: Row): seq<(string, string)> {
    var cols := SortedSet(row.cells.Keys);
    LinkPairs(cols, row.cells)
  }

  /** `subnodes[name]` */
  function Lookup(pairs: seq<(string, string)>, name: string): string
    requires name in Firsts(pairs)
  {
    LastValue(pairs, name).value
  }

  /** What discovery yields. */
  datatype FoundNode = LeafNode(path: string, info: Info) | BranchNode(path: string)

  /** The nodes a generator yields, and the exception that ends it, if one does. */
  datatype Found = Found(nodes: seq<FoundNode>, error: Option<Error>)

  /** Running one generator after another: nothing follows an exception. */
  function Then(a: Found, b: Found): Found {
    if a.error.Some? then a else Found(a.nodes + b.nodes, b.error)
  }

  lemma ThenAssociative(a: Found, b: Found, c: Found)
    ensures Then(Then(a, b), c) == Then(a, Then(b, c))
  {
    if a.error.None? && b.error.None? {
      assert (a.nodes + b.nodes) + c.nodes == a.nodes + (b.nodes + c.nodes);
    }
  }

  const Nothing := Found([], None)

  /** `_find_paths(key, patterns)` */
  ghost function FindPaths(meta: MetaTable, key: string, patterns: seq<string>): Found
    requires |patterns| > 0
    decreases |patterns|, 0, 0
  {
    if !RowExists(meta, key) then Nothing
    else
      var pairs := Subnodes(meta[key]);
      var matching := MatchEntries(Dedup(Firsts(pairs)), patterns[0]);
      if |patterns| > 1 then Descend(meta, pairs, matching, patterns[1..])
      else Leaves(meta, pairs, matching)
  }

  /** The loop over the matching children while patterns remain: a missing
      child row raises IndexError, a leaf child is skipped, a branch child
      is searched with the remaining patterns. */
  ghost function Descend(meta: MetaTable, pairs: seq<(string, string)>, names: seq<string>, rest: seq<string>): Found
    requires |rest| > 0
    requires forall i :: 0 <= i < |names| ==> names[i] in Firsts(pairs)
    decreases |rest|, 1, |names|
  {
    if |names| == 0 then Nothing
    else Then(Visit(meta, Lookup(pairs, names[0]), rest), Descend(meta, pairs, names[1..], rest))
  }

  /** One matching child while patterns remain. */
  ghost function Visit(meta: MetaTable, rowKey: string, rest: seq<string>): Found
    requires |rest| > 0
    decreases |rest|, 0, 1
  {
    if !RowExists(meta, rowKey) then Found([], Some(IndexError))
    else if meta[rowKey].info.Some? then Nothing
    else FindPaths(meta, rowKey, rest)
  }

  /** The loop over the children from the `q`-th on. */
  lemma DescendStep(meta: MetaTable, pairs: seq<(string, string)>, names: seq<string>, rest: seq<string>, q: nat)
    requires |rest| > 0 && q < |names|
    requires forall i :: 0 <= i < |names| ==> names[i] in Firsts(pairs)
    ensures Descend(meta, pairs, names[q..], rest) ==
            Then(Visit(meta, Lookup(pairs, names[q]), rest), Descend(meta, pairs, names[q + 1..], rest))
  {
    assert names[q..][0] == names[q] && names[q..][1..] == names[q + 1..];
  }

  /** The node yielded for an existing row at the last level. */
  function NodeOf(meta: MetaTable, rowKey: string): Found
    requires RowExists(meta, rowKey)
  {
    match SecondField(rowKey)
      case None => Found([], Some(IndexError))
      case Some(metric) =>
        Found([if meta[rowKey].info.Some? then LeafNode(metric, meta[rowKey].info.value) else BranchNode(metric)], None)
  }

  /** The loop over the matching children at the last pattern: a missing
      row is skipped, a row with `cf:INFO` is a leaf, any other a branch,
      named by its row key with the `m_` popped off. */
  function Leaves(meta: MetaTable, pairs: seq<(string, string)>, names: seq<string>): Found
    requires forall i :: 0 <= i < |names| ==> names[i] in Firsts(pairs)
    decreases |names|
  {
    if |names| == 0 then Nothing
    else
      var rowKey := Lookup(pairs, names[0]);
      var here := if !RowExists(meta, rowKey) then Nothing else NodeOf(meta, rowKey);
      Then(here, Leaves(meta, pairs, names[1..]))
  }

  /** `find_nodes(query)`: backslashes dropped, the pattern split on dots,
      the search started at ROOT. */
  ghost function FindNodes(meta: MetaTable, pattern: string): Found {
    FindPaths(meta, RootKey, Split(RemoveChar(pattern, '\\'), '.'))
  }

  /** Row `child` is linked from row `key` under a name the pattern selects. */
  ghost predicate MatchedChild(meta: MetaTable, key: string, pattern: string, child: string)
    requires RowExists(meta, key)
  {
    var pairs := Subnodes(meta[key]);
    exists name :: name in Firsts(pairs) && Selects(pattern, name) && Lookup(pairs, name) == child
  }

  /** The reference definition of what discovery finds: the rows reached
      from `key` by following, for each pattern, a child link the pattern
      selects, through rows that exist and hold no `cf:INFO`. */
  ghost predicate Reaches(meta: MetaTable, key: string, patterns: seq<string>, target: string)
    requires |patterns| > 0
    decreases |patterns|
  {
    RowExists(meta, key) &&
    if |patterns| == 1 then MatchedChild(meta, key, patterns[0], target) && RowExists(meta, target)
    else exists child :: MatchedChild(meta, key, patterns[0], child) &&
                         RowExists(meta, child) && meta[child].info.None? &&
                         Reaches(meta, child, patterns[1..], target)
  }

  /** The node discovery reports for a reached row: named by the row key's
      second `_`-field, a leaf with the row's info when it has one. */
  predicate Reports(meta: MetaTable, rowKey: string, n: FoundNode) {
    RowExists(meta, rowKey) && SecondField(rowKey) == Some(n.path) &&
    (if meta[rowKey].info.Some? then n == LeafNode(n.path, meta[rowKey].info.value) else n == BranchNode(n.path))
  }

  /** The names the row's loop visits are its link names the pattern selects. */
  lemma MatchingNames(meta: MetaTable, key: string, pattern: string)
    requires RowExists(meta, key)
    ensures var pairs := Subnodes(meta[key]);
            forall x :: x in MatchEntries(Dedup(Firsts(pairs)), pattern) <==> x in Firsts(pairs) && Selects(pattern, x)
  {
    MatchEntriesSelects(Dedup(Firsts(Subnodes(meta[key]))), pattern);
  }

  lemma ThenNodes(a: Found, b: Found, n: FoundNode)
    requires n in Then(a, b).nodes
    ensures n in a.nodes || (a.error.None? && n in b.nodes)
  {
  }

  /** Each node the last level yields reports the row of one of the names. */
  lemma {:induction false} LeavesSound(meta: MetaTable, pairs: seq<(string, string)>, names: seq<string>, n: FoundNode)
    requires forall i :: 0 <= i < |names| ==> names[i] in Firsts(pairs)
    requires n in Leaves(meta, pairs, names).nodes
    ensures exists i :: 0 <= i < |names| && Reports(meta, Lookup(pairs, names[i]), n)
    decreases |names|
  {
    var rowKey := Lookup(pairs, names[0]);
    var here := if !RowExists(meta, rowKey) then Nothing else NodeOf(meta, rowKey);
    ThenNodes(here, Leaves(meta, pairs, names[1..]), n);
    if n in here.nodes {
      assert Reports(meta, Lookup(pairs, names[0]), n);
    } else {
      LeavesSound(meta, pairs, names[1..], n);
      var i :| 0 <= i < |names[1..]| && Reports(meta, Lookup(pairs, names[1..][i]), n);
      assert names[1..][i] == names[i + 1];
    }
  }

  /** Every node discovery yields reports a row the patterns reach. */
  lemma {:induction false} FindSound(meta: MetaTable, key: string, patterns: seq<string>, n: FoundNode)
    requires |patterns| > 0
    requires n in FindPaths(meta, key, patterns).nodes
    ensures exists target :: Reaches(meta, key, patterns, target) && Reports(meta, target, n)
    decreases |patterns|, 0, 0
  {
    var pairs := Subnodes(meta[key]);
    var matching := MatchEntries(Dedup(Firsts(pairs)), patterns[0]);
    MatchingNames(meta, key, patterns[0]);
    assert forall i :: 0 <= i < |matching| ==> matching[i] in matching;
    if |patterns| > 1 {
      DescendSound(meta, pairs, matching, patterns[1..], n);
      var i, target :| 0 <= i < |matching| && DescendsTo(meta, Lookup(pairs, matching[i]), patterns[1..], target) &&
                       Reports(meta, target, n);
      assert MatchedChild(meta, key, patterns[0], Lookup(pairs, matching[i]));
      assert Reaches(meta, key, patterns, target);
    } else {
      LeavesSound(meta, pairs, matching, n);
      var i :| 0 <= i < |matching| && Reports(meta, Lookup(pairs, matching[i]), n);
      assert MatchedChild(meta, key, patterns[0], Lookup(pairs, matching[i]));
    }
  }

  /** Row `child` is a branch row from which `rest` reaches `target`. */
  ghost predicate DescendsTo(meta: MetaTable, child: string, rest: seq<string>, target: string)
    requires |rest| > 0
  {
    RowExists(meta, child) && meta[child].info.None? && Reaches(meta, child, rest, target)
  }

  lemma {:induction false} DescendSound(meta: MetaTable, pairs: seq<(string, string)>, names: seq<string>, rest: seq<string>, n: FoundNode)
    requires |rest| > 0
    requires forall i :: 0 <= i < |names| ==> names[i] in Firsts(pairs)
    requires n in Descend(meta, pairs, names, rest).nodes
    ensures exists i, target :: 0 <= i < |names| && DescendsTo(meta, Lookup(pairs, names[i]), rest, target) &&
                                Reports(meta, target, n)
    decreases |rest|, 1, |names|
  {
    var rowKey := Lookup(pairs, names[0]);
    var here := Visit(meta, rowKey, rest);
    assert Descend(meta, pairs, names, rest) == Then(here, Descend(meta, pairs, names[1..], rest));
    ThenNodes(here, Descend(meta, pairs, names[1..], rest), n);
    if n in here.nodes {
      assert here == FindPaths(meta, rowKey, rest);
      FindSound(meta, rowKey, rest, n);
      var target :| Reaches(meta, rowKey, rest, target) && Reports(meta, target, n);
      assert DescendsTo(meta, Lookup(pairs, names[0]), rest, target);
    } else {
      DescendSound(meta, pairs, names[1..], rest, n);
      var i, target :| 0 <= i < |names[1..]| && DescendsTo(meta, Lookup(pairs, names[1..][i]), rest, target) &&
                       Reports(meta, target, n);
      assert names[1..][i] == names[i + 1];
      assert DescendsTo(meta, Lookup(pairs, names[i + 1]), rest, target);
    }
  }

  /** A search that raises nothing yields a node for every row a name leads to. */
  lemma {:induction false} LeavesComplete(meta: MetaTable, pairs: seq<(string, string)>, names: seq<string>, i: int)
    requires forall i :: 0 <= i < |names| ==> names[i] in Firsts(pairs)
    requires Leaves(meta, pairs, names).error.None?
    requires 0 <= i < |names| && RowExists(meta, Lookup(pairs, names[i]))
    ensures exists n :: n in Leaves(meta, pairs, names).nodes && Reports(meta, Lookup(pairs, names[i]), n)
    decreases |names|
  {
    var rowKey := Lookup(pairs, names[0]);
    var here := if !RowExists(meta, rowKey) then Nothing else NodeOf(meta, rowKey);
    var tail := Leaves(meta, pairs, names[1..]);
    if i == 0 {
      var n := here.nodes[0];
      assert Reports(meta, rowKey, n);
      assert n in Then(here, tail).nodes;
    } else {
      assert names[1..][i - 1] == names[i];
      LeavesComplete(meta, pairs, names[1..], i - 1);
      var n :| n in tail.nodes && Reports(meta, Lookup(pairs, names[i]), n);
      assert n in Then(here, tail).nodes;
    }
  }

  /** A search that raises nothing yields a node for every row the patterns reach. */
  lemma {:induction false} FindComplete(meta: MetaTable, key: string, patterns: seq<string>, target: string)
    requires |patterns| > 0
    requires FindPaths(meta, key, patterns).error.None?
    requires Reaches(meta, key, patterns, target)
    ensures exists n :: n in FindPaths(meta, key, patterns).nodes && Reports(meta, target, n)
    decreases |patterns|, 0, 0
  {
    var pairs := Subnodes(meta[key]);
    var matching := MatchEntries(Dedup(Firsts(pairs)), patterns[0]);
    MatchingNames(meta, key, patterns[0]);
    assert forall i :: 0 <= i < |matching| ==> matching[i] in matching;
    if |patterns| > 1 {
      assert FindPaths(meta, key, patterns) == Descend(meta, pairs, matching, patterns[1..]);
      var child :| MatchedChild(meta, key, patterns[0], child) && DescendsTo(meta, child, patterns[1..], target);
      var name :| name in Firsts(pairs) && Selects(patterns[0], name) && Lookup(pairs, name) == child;
      var i := IndexOf(matching, name);
      DescendComplete(meta, pairs, matching, patterns[1..], i, target);
    } else {
      assert FindPaths(meta, key, patterns) == Leaves(meta, pairs, matching);
      var name :| name in Firsts(pairs) && Selects(patterns[0], name) && Lookup(pairs, name) == target;
      var i := IndexOf(matching, name);
      LeavesComplete(meta, pairs, matching, i);
    }
  }

  lemma IndexOf(s: seq<string>, x: string) returns (i: nat)
    requires x in s
    ensures i < |s| && s[i] == x
  {
    i :| 0 <= i < |s| && s[i] == x;
  }

  lemma {:induction false} DescendComplete(meta: MetaTable, pairs: seq<(string, string)>, names: seq<string>, rest: seq<string>, i: int, target: string)
    requires |rest| > 0
    requires forall i :: 0 <= i < |names| ==> names[i] in Firsts(pairs)
    requires Descend(meta, pairs, names, rest).error.None?
    requires 0 <= i < |names| && DescendsTo(meta, Lookup(pairs, names[i]), rest, target)
    ensures exists n :: n in Descend(meta, pairs, names, rest).nodes && Reports(meta, target, n)
    decreases |rest|, 1, |names|
  {
    var rowKey := Lookup(pairs, names[0]);
    var here := Visit(meta, rowKey, rest);
    var tail := Descend(meta, pairs, names[1..], rest);
    assert Descend(meta, pairs, names, rest) == Then(here, tail);
    assert here.error.None? && tail.error.None?;
    if i == 0 {
      assert here == FindPaths(meta, rowKey, rest);
      FindComplete(meta, rowKey, rest, target);
      var n :| n in here.nodes && Reports(meta, target, n);
      assert n in Then(here, tail).nodes;
    } else {
      assert forall j :: 0 <= j < |names[1..]| ==> names[1..][j] in Firsts(pairs);
      assert names[1..][i - 1] == names[i];
      DescendComplete(meta, pairs, names[1..], rest, i - 1, target);
      var n :| n in tail.nodes && Reports(meta, target, n);
      assert n in Then(here, tail).nodes;
    }
  }

}
