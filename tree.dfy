/** The namespace table as a tree that discovery can walk (hbasedb.py,
    `create`'s link loop, `setAggregationMethod` and `_find_paths`): the
    invariants the two writers keep, the proof that under them
    `_find_paths` never raises, and the proof that a created metric is found
    by every query whose patterns select its segments. */
module Tree {
  import opened Base
  import opened Text
  import opened Glob
  import opened Schema
  import opened Namespace

  /** A path row's key: `m_` followed by the path. */
  predicate IsPathKey(key: string) {
    StartsWith(key, "m_")
  }

  /** The row key `create` stores under link `name` of row `parent`: `m_`
      and the name below ROOT, the parent's key, a dot and the name below
      a path row. */
  function ChildKey(parent: string, name: string): string {
    if parent == RootKey then MetricKey(name) else parent + "." + name
  }

  /** The name a link column carries after `cf:c_`. */
  function LinkName(col: string): string
    requires StartsWith(col, LinkPrefix)
  {
    col[|LinkPrefix|..]
  }

  /** Every link cell names a path row that exists. */
  ghost predicate LinksResolve(meta: MetaTable) {
    forall key, col :: key in meta && col in meta[key].cells && StartsWith(col, LinkPrefix) ==>
      IsPathKey(meta[key].cells[col]) && RowExists(meta, meta[key].cells[col])
  }

  /** Every link column sits on ROOT or on a path row, carries a non-empty
      name without `_` or `.`, and holds the child key derived from its row
      and its name. */
  ghost predicate CanonicalLinks(meta: MetaTable) {
    forall key, col :: key in meta && col in meta[key].cells && StartsWith(col, LinkPrefix) ==>
      && (key == RootKey || IsPathKey(key))
      && LinkName(col) != "" && '_' !in LinkName(col) && '.' !in LinkName(col)
      && meta[key].cells[col] == ChildKey(key, LinkName(col))
  }

  /** The row key of the metric's path through segment `i`. */
  function PrefixKey(metric: string, i: nat): string
    requires i < |Segments(metric)|
  {
    MetricKey(Join(Segments(metric)[..i + 1], '.'))
  }

  /** A metric whose segments are all non-empty and free of `_`. */
  predicate PlainMetric(metric: string) {
    var parts := Segments(metric);
    forall i :: 0 <= i < |parts| ==> parts[i] != "" && '_' !in parts[i]
  }

  // ---------------------------------------------------------------------
  // The links of one path

  /** Each link's child is the key derived from its parent and its
      segment, and both ends are path rows or ROOT. */
  lemma LinkChildKey(parts: seq<string>, i: nat)
    requires i < |parts|
    ensures var l := LinkAt(parts, i);
            && l.part == parts[i]
            && l.child == ChildKey(l.parent, parts[i])
            && (l.parent == RootKey || IsPathKey(l.parent))
            && IsPathKey(l.child)
  {
    var p := Prior(parts, i);
    if p != "" {
      assert ("m_" + p)[0] == 'm';
      assert ("m_" + p + "." + parts[i])[..2] == "m_";
    }
  }

  /** Along a path whose first segment is not empty, each link's child row
      is the parent row of the next link. */
  lemma LinkChain(parts: seq<string>, i: nat)
    requires i + 1 < |parts| && parts[0] != ""
    ensures LinkAt(parts, i).child == LinkAt(parts, i + 1).parent
  {
    PriorIsJoin(parts, i + 1);
  }

  /** A column holding a link reads back the name it was written with. */
  lemma LinkColumnName(name: string)
    ensures StartsWith(LinkPrefix + name, LinkPrefix) && LinkName(LinkPrefix + name) == name
  {
    assert (LinkPrefix + name)[..|LinkPrefix|] == LinkPrefix;
  }

  /** With a segment before it, every proper prefix of a dotted path is
      shorter than the path. */
  lemma {:induction false} JoinPrefixShorter(parts: seq<string>, m: nat, sep: char)
    requires 1 <= m < |parts|
    ensures |Join(parts[..m], sep)| < |Join(parts, sep)|
    decreases |parts|
  {
    var n := |parts| - 1;
    if m < n {
      JoinPrefixShorter(parts[..n], m, sep);
      assert parts[..n][..m] == parts[..m];
    }
  }

  // ---------------------------------------------------------------------
  // What `create` keeps

  /** A row that exists still exists after `create`. */
  lemma RowExistsKept(meta: MetaTable, metric: string, info: Info, key: string)
    requires RowExists(meta, key)
    ensures RowExists(Created(meta, metric, info), key)
  {
    CreatedFacts(meta, metric, info);
    var r := Created(meta, metric, info);
    if key != MetricKey(metric) {
      if meta[key].info.Some? {
        assert GetRow(r, key).info == GetRow(meta, key).info;
      } else {
        var col :| col in meta[key].cells;
        assert col in GetRow(r, key).cells;
      }
      assert key in r;
    }
  }

  /** A link cell of the table after `create` is either one it had, with
      its value, or one the link loop added for a segment of the path. */
  lemma CreatedCell(meta: MetaTable, metric: string, info: Info, key: string, col: string)
    requires key in Created(meta, metric, info) && col in Created(meta, metric, info)[key].cells
    ensures var r := Created(meta, metric, info);
            var parts := Segments(metric);
            || (key in meta && col in meta[key].cells && r[key].cells[col] == meta[key].cells[col])
            || (exists i :: 0 <= i < |parts| && LinkAt(parts, i).parent == key && col == LinkPrefix + parts[i] &&
                            r[key].cells[col] == LinkAt(parts, i).child)
  {
    var parts := Segments(metric);
    var links := Links(parts);
    var m1 := WriteInfo(meta, MetricKey(metric), info);
    EnsureLinksExtends(m1, links);
    if col !in GetRow(m1, key).cells {
      EnsureLinksNew(m1, links, key, col);
      var i :| 0 <= i < |links| && links[i].parent == key && col == LinkPrefix + links[i].part &&
               GetRow(EnsureLinks(m1, links), key).cells[col] == links[i].child;
      assert links[i] == LinkAt(parts, i);
    } else {
      assert GetRow(m1, key).cells == GetRow(meta, key).cells;
    }
  }

  /** The child row of every link of a created path exists afterwards. */
  lemma CreatedChildExists(meta: MetaTable, metric: string, info: Info, i: nat)
    requires Segments(metric)[0] != "" && i < |Segments(metric)|
    ensures var child := LinkAt(Segments(metric), i).child;
            IsPathKey(child) && RowExists(Created(meta, metric, info), child)
  {
    var parts := Segments(metric);
    var r := Created(meta, metric, info);
    CreatedFacts(meta, metric, info);
    LinkChildKey(parts, i);
    if i + 1 < |parts| {
      LinkChain(parts, i);
      assert HasLink(r, Links(parts)[i + 1]);
    } else {
      MetricLinks(metric);
    }
  }

  /** `create` keeps every link resolving, as long as the metric's first
      segment is not empty. */
  lemma CreatedLinksResolve(meta: MetaTable, metric: string, info: Info)
    requires LinksResolve(meta) && Segments(metric)[0] != ""
    ensures LinksResolve(Created(meta, metric, info))
  {
    var parts := Segments(metric);
    var r := Created(meta, metric, info);
    forall key, col | key in r && col in r[key].cells && StartsWith(col, LinkPrefix)
      ensures IsPathKey(r[key].cells[col]) && RowExists(r, r[key].cells[col])
    {
      CreatedCell(meta, metric, info, key, col);
      if key in meta && col in meta[key].cells && r[key].cells[col] == meta[key].cells[col] {
        RowExistsKept(meta, metric, info, meta[key].cells[col]);
      } else {
        var i :| 0 <= i < |parts| && LinkAt(parts, i).parent == key && col == LinkPrefix + parts[i] &&
                 r[key].cells[col] == LinkAt(parts, i).child;
        CreatedChildExists(meta, metric, info, i);
      }
    }
  }

  /** `create` keeps every link canonical when the metric is plain. */
  lemma CreatedCanonical(meta: MetaTable, metric: string, info: Info)
    requires CanonicalLinks(meta) && PlainMetric(metric)
    ensures CanonicalLinks(Created(meta, metric, info))
  {
    var parts := Segments(metric);
    var r := Created(meta, metric, info);
    forall key, col | key in r && col in r[key].cells && StartsWith(col, LinkPrefix)
      ensures && (key == RootKey || IsPathKey(key))
              && LinkName(col) != "" && '_' !in LinkName(col) && '.' !in LinkName(col)
              && r[key].cells[col] == ChildKey(key, LinkName(col))
    {
      CreatedCell(meta, metric, info, key, col);
      if !(key in meta && col in meta[key].cells && r[key].cells[col] == meta[key].cells[col]) {
        var i :| 0 <= i < |parts| && LinkAt(parts, i).parent == key && col == LinkPrefix + parts[i] &&
                 r[key].cells[col] == LinkAt(parts, i).child;
        LinkChildKey(parts, i);
        LinkColumnName(parts[i]);
      }
    }
  }

  /** `setAggregationMethod` rewrites one info cell and keeps both invariants. */
  lemma SetInfoKeepsTree(meta: MetaTable, key: string, info: Info)
    requires key in meta
    ensures var r := meta[key := meta[key].(info := Some(info))];
            && (LinksResolve(meta) ==> LinksResolve(r))
            && (CanonicalLinks(meta) ==> CanonicalLinks(r))
  {
    var r := meta[key := meta[key].(info := Some(info))];
    assert forall k :: RowExists(meta, k) ==> RowExists(r, k);
  }

  /** The empty table, which the constructor starts from, satisfies both. */
  lemma EmptyTree()
    ensures LinksResolve(map[]) && CanonicalLinks(map[])
  {
  }

  // ---------------------------------------------------------------------
  // Reading links back

  /** The pairs of the loop come from link columns, each named by its
      column's second field and valued with the column's cell. */
  lemma {:induction false} LinkPairsFrom(cols: seq<string>, cells: map<string, string>, j: nat)
    requires forall i :: 0 <= i < |cols| ==> cols[i] in cells
    requires j < |LinkPairs(cols, cells)|
    ensures exists col :: col in cols && StartsWith(col, LinkPrefix) && SecondField(col).Some? &&
                          LinkPairs(cols, cells)[j] == (SecondField(col).value, cells[col])
    decreases |cols|
  {
    var n := |cols| - 1;
    var init := LinkPairs(cols[..n], cells);
    if j < |init| {
      LinkPairsFrom(cols[..n], cells, j);
      var col :| col in cols[..n] && StartsWith(col, LinkPrefix) && SecondField(col).Some? &&
                 init[j] == (SecondField(col).value, cells[col]);
      assert col in cols;
    } else {
      var col := cols[n];
      assert StartsWith(col, LinkPrefix);
      SecondFieldOfLinkColumn(col);
      assert col in cols && LinkPairs(cols, cells)[j] == (SecondField(col).value, cells[col]);
    }
  }

  /** Every link column among `cols` contributes its pair. */
  lemma {:induction false} LinkPairsHas(cols: seq<string>, cells: map<string, string>, col: string)
    requires forall i :: 0 <= i < |cols| ==> cols[i] in cells
    requires col in cols && StartsWith(col, LinkPrefix)
    ensures SecondField(col).Some? && (SecondField(col).value, cells[col]) in LinkPairs(cols, cells)
    decreases |cols|
  {
    SecondFieldOfLinkColumn(col);
    var n := |cols| - 1;
    if cols[n] != col {
      assert col in cols[..n];
      LinkPairsHas(cols[..n], cells, col);
    }
  }

  /** `subnodes[name]` is the cell of a link column whose second field is `name`. */
  lemma LookupLinkCell(row: Row, name: string)
    requires name in Firsts(Subnodes(row))
    ensures exists col :: col in row.cells && StartsWith(col, LinkPrefix) && SecondField(col) == Some(name) &&
                          row.cells[col] == Lookup(Subnodes(row), name)
  {
    var pairs := Subnodes(row);
    var v := Lookup(pairs, name);
    LastValueIsLast(pairs, name, v);
    var j :| 0 <= j < |pairs| && pairs[j] == (name, v) && forall j' :: j < j' < |pairs| ==> pairs[j'].0 != name;
    LinkPairsFrom(SortedSet(row.cells.Keys), row.cells, j);
  }

  /** Under `LinksResolve`, every child a row lists is an existing path row. */
  lemma LookupResolves(meta: MetaTable, key: string, name: string)
    requires LinksResolve(meta) && key in meta && name in Firsts(Subnodes(meta[key]))
    ensures IsPathKey(Lookup(Subnodes(meta[key]), name)) && RowExists(meta, Lookup(Subnodes(meta[key]), name))
  {
    LookupLinkCell(meta[key], name);
  }

  /** Under `CanonicalLinks`, every child a row lists under `name` is the
      key derived from the row and the name, and the name is non-empty and
      free of `_` and `.`. */
  lemma LookupCanonical(meta: MetaTable, key: string, name: string)
    requires CanonicalLinks(meta) && key in meta && name in Firsts(Subnodes(meta[key]))
    ensures Lookup(Subnodes(meta[key]), name) == ChildKey(key, name)
    ensures name != "" && '_' !in name && '.' !in name
  {
    LookupLinkCell(meta[key], name);
    var col :| col in meta[key].cells && StartsWith(col, LinkPrefix) && SecondField(col) == Some(name) &&
               meta[key].cells[col] == Lookup(Subnodes(meta[key]), name);
    assert col == LinkPrefix + LinkName(col);
    SecondFieldOfPrefixed(LinkPrefix, LinkName(col));
  }

  /** A link column whose name has no `_` lists that name among the children. */
  lemma LinkedName(meta: MetaTable, key: string, name: string)
    requires key in meta && LinkPrefix + name in meta[key].cells && '_' !in name
    ensures name in Firsts(Subnodes(meta[key]))
  {
    var cells := meta[key].cells;
    var cols := SortedSet(cells.Keys);
    LinkColumnName(name);
    LinkPairsHas(cols, cells, LinkPrefix + name);
    SecondFieldOfPrefixed(LinkPrefix, name);
    var j :| 0 <= j < |LinkPairs(cols, cells)| && LinkPairs(cols, cells)[j] == (name, cells[LinkPrefix + name]);
    assert Firsts(LinkPairs(cols, cells))[j] == name;
  }

  lemma SecondFieldOfPathKey(key: string)
    requires IsPathKey(key)
    ensures SecondField(key).Some?
  {
    assert key[1] == '_' && '_' in key;
    var k := Find(key, '_');
    assert Split(key, '_') == [key[..k]] + Split(key[k + 1..], '_');
  }

  // ---------------------------------------------------------------------
  // Discovery never raises on a tree

  /** With every link resolving, `_find_paths` raises nothing, whatever the
      row and the patterns. */
  lemma {:induction false} FindNoError(meta: MetaTable, key: string, patterns: seq<string>)
    requires LinksResolve(meta) && |patterns| > 0
    ensures FindPaths(meta, key, patterns).error.None?
    decreases |patterns|, 0, 0
  {
    if RowExists(meta, key) {
      var pairs := Subnodes(meta[key]);
      var matching := MatchEntries(Dedup(Firsts(pairs)), patterns[0]);
      MatchingNames(meta, key, patterns[0]);
      forall i | 0 <= i < |matching|
        ensures matching[i] in Firsts(pairs)
        ensures IsPathKey(Lookup(pairs, matching[i])) && RowExists(meta, Lookup(pairs, matching[i]))
      {
        assert matching[i] in matching;
        LookupResolves(meta, key, matching[i]);
      }
      if |patterns| > 1 {
        DescendNoError(meta, pairs, matching, patterns[1..]);
      } else {
        LeavesNoError(meta, pairs, matching);
      }
    }
  }

  lemma {:induction false} DescendNoError(meta: MetaTable, pairs: seq<(string, string)>, names: seq<string>, rest: seq<string>)
    requires LinksResolve(meta) && |rest| > 0
    requires forall i :: 0 <= i < |names| ==> names[i] in Firsts(pairs) && RowExists(meta, Lookup(pairs, names[i]))
    ensures Descend(meta, pairs, names, rest).error.None?
    decreases |rest|, 1, |names|
  {
    if |names| > 0 {
      var rowKey := Lookup(pairs, names[0]);
      if meta[rowKey].info.None? {
        FindNoError(meta, rowKey, rest);
      }
      assert forall i :: 0 <= i < |names[1..]| ==> names[1..][i] == names[i + 1];
      DescendNoError(meta, pairs, names[1..], rest);
    }
  }

  lemma {:induction false} LeavesNoError(meta: MetaTable, pairs: seq<(string, string)>, names: seq<string>)
    requires forall i :: 0 <= i < |names| ==> names[i] in Firsts(pairs) && IsPathKey(Lookup(pairs, names[i]))
    ensures Leaves(meta, pairs, names).error.None?
    decreases |names|
  {
    if |names| > 0 {
      SecondFieldOfPathKey(Lookup(pairs, names[0]));
      assert forall i :: 0 <= i < |names[1..]| ==> names[1..][i] == names[i + 1];
      LeavesNoError(meta, pairs, names[1..]);
    }
  }

  // ---------------------------------------------------------------------
  // A created metric is reached

  /** A present link whose plain segment the pattern selects is a matched
      child of an existing parent row. */
  lemma LinkMatched(meta: MetaTable, parts: seq<string>, pattern: string, i: nat)
    requires CanonicalLinks(meta) && i < |parts| && '_' !in parts[i]
    requires Selects(pattern, parts[i]) && HasLink(meta, LinkAt(parts, i))
    ensures var l := LinkAt(parts, i);
            RowExists(meta, l.parent) && MatchedChild(meta, l.parent, pattern, l.child)
  {
    var l := LinkAt(parts, i);
    LinkChildKey(parts, i);
    LinkedName(meta, l.parent, parts[i]);
    LookupCanonical(meta, l.parent, parts[i]);
  }

  /** A chain of rows, one more than the patterns: each row exists and
      has the next as a child its pattern selects, and the rows strictly
      inside the chain hold no info. */
  ghost predicate Chain(meta: MetaTable, keys: seq<string>, patterns: seq<string>)
    requires |keys| == |patterns| + 1
  {
    && (forall j :: 0 <= j < |patterns| ==> RowExists(meta, keys[j]) && MatchedChild(meta, keys[j], patterns[j], keys[j + 1]))
    && (forall j :: 0 < j < |patterns| ==> GetRow(meta, keys[j]).info.None?)
    && RowExists(meta, keys[|patterns|])
  }

  /** From row `i` of a chain on, the remaining patterns reach its last row. */
  lemma {:induction false} ChainReaches(meta: MetaTable, keys: seq<string>, patterns: seq<string>, i: nat)
    requires |keys| == |patterns| + 1 && Chain(meta, keys, patterns) && i < |patterns|
    ensures Reaches(meta, keys[i], patterns[i..], keys[|patterns|])
    decreases |patterns| - i
  {
    var rest := patterns[i..];
    assert rest[0] == patterns[i];
    if i + 1 < |patterns| {
      ChainReaches(meta, keys, patterns, i + 1);
      assert rest[1..] == patterns[i + 1..];
      assert GetRow(meta, keys[i + 1]).info.None?;
      ReachesStep(meta, keys[i], rest, keys[i + 1], keys[|patterns|]);
    } else {
      ReachesLast(meta, keys[i], rest, keys[i + 1]);
    }
  }

  /** The last step of `Reaches`: a matched child that exists. */
  lemma ReachesLast(meta: MetaTable, key: string, patterns: seq<string>, target: string)
    requires |patterns| == 1 && RowExists(meta, key)
    requires MatchedChild(meta, key, patterns[0], target) && RowExists(meta, target)
    ensures Reaches(meta, key, patterns, target)
  {
  }

  /** One step of `Reaches`: a matched branch child from which the rest of
      the patterns reach the target. */
  lemma ReachesStep(meta: MetaTable, key: string, patterns: seq<string>, child: string, target: string)
    requires |patterns| > 1 && RowExists(meta, key)
    requires MatchedChild(meta, key, patterns[0], child)
    requires RowExists(meta, child) && meta[child].info.None? && Reaches(meta, child, patterns[1..], target)
    ensures Reaches(meta, key, patterns, target)
  {
  }

  /** The rows of a metric's path: ROOT, then the child row of each link. */
  function PathRows(parts: seq<string>): (keys: seq<string>)
    ensures |keys| == |parts| + 1
  {
    [RootKey] + seq(|parts|, j requires 0 <= j < |parts| => LinkAt(parts, j).child)
  }

  /** Row `j` of the path rows is the parent of link `j`, row `j + 1` its child. */
  lemma PathRowsLink(parts: seq<string>, j: nat)
    requires j < |parts| && parts[0] != ""
    ensures PathRows(parts)[j] == LinkAt(parts, j).parent
    ensures PathRows(parts)[j + 1] == LinkAt(parts, j).child
  {
    if j > 0 {
      LinkChain(parts, j - 1);
    }
  }

  /** Row `j + 1` of a metric's path rows is the metric's prefix through
      segment `j`. */
  lemma PathRowPrefix(metric: string, j: nat)
    requires Segments(metric)[0] != "" && j < |Segments(metric)|
    ensures PathRows(Segments(metric))[j + 1] == PrefixKey(metric, j)
  {
    LinkAtFacts(Segments(metric), j);
  }

  /** The prefix through the last segment is the metric itself. */
  lemma LastPrefix(metric: string)
    ensures PrefixKey(metric, |Segments(metric)| - 1) == MetricKey(metric)
  {
    var parts := Segments(metric);
    assert parts[..|parts|] == parts;
    JoinSplit(metric, '.');
  }

  /** A link of a path that is present and whose segment the pattern
      selects joins two consecutive path rows. */
  lemma PathStepMatched(meta: MetaTable, parts: seq<string>, pattern: string, j: nat)
    requires CanonicalLinks(meta) && j < |parts| && parts[0] != "" && '_' !in parts[j]
    requires Selects(pattern, parts[j]) && HasLink(meta, Links(parts)[j])
    ensures RowExists(meta, PathRows(parts)[j])
    ensures MatchedChild(meta, PathRows(parts)[j], pattern, PathRows(parts)[j + 1])
  {
    PathRowsLink(parts, j);
    assert Links(parts)[j] == LinkAt(parts, j);
    LinkMatched(meta, parts, pattern, j);
  }

  /** A plain metric whose path is linked link by link, with no info on the
      rows above it, is reached from ROOT by any patterns selecting its
      segments. */
  lemma LinkedPathReaches(meta: MetaTable, metric: string, patterns: seq<string>)
    requires CanonicalLinks(meta) && PlainMetric(metric)
    requires |patterns| == |Segments(metric)|
    requires forall i :: 0 <= i < |patterns| ==> Selects(patterns[i], Segments(metric)[i])
    requires forall i :: 0 <= i < |Segments(metric)| ==> HasLink(meta, Links(Segments(metric))[i])
    requires forall i :: 0 <= i < |Segments(metric)| - 1 ==> GetRow(meta, PrefixKey(metric, i)).info.None?
    requires RowExists(meta, MetricKey(metric))
    ensures Reaches(meta, RootKey, patterns, MetricKey(metric))
  {
    var parts := Segments(metric);
    var keys := PathRows(parts);
    forall j | 0 <= j < |parts|
      ensures RowExists(meta, keys[j]) && MatchedChild(meta, keys[j], patterns[j], keys[j + 1])
    {
      PathStepMatched(meta, parts, patterns[j], j);
    }
    forall j | 0 < j < |parts|
      ensures GetRow(meta, keys[j]).info.None?
    {
      PathRowPrefix(metric, j - 1);
    }
    PathRowPrefix(metric, |parts| - 1);
    LastPrefix(metric);
    ChainReaches(meta, keys, patterns, 0);
    assert patterns[0..] == patterns;
  }

  /** A proper prefix of a metric names a row with a shorter key than the
      metric's own. */
  lemma PrefixAbove(metric: string, i: nat)
    requires i < |Segments(metric)| - 1
    ensures |PrefixKey(metric, i)| < |MetricKey(metric)|
  {
    var parts := Segments(metric);
    JoinPrefixShorter(parts, i + 1, '.');
    JoinSplit(metric, '.');
  }

  /** A metric filed in the table: a plain metric whose row exists, whose
      path is linked link by link and whose rows above it hold no info. */
  ghost predicate Filed(meta: MetaTable, metric: string) {
    && PlainMetric(metric)
    && RowExists(meta, MetricKey(metric))
    && (forall i :: 0 <= i < |Segments(metric)| ==> HasLink(meta, Links(Segments(metric))[i]))
    && (forall i :: 0 <= i < |Segments(metric)| - 1 ==> GetRow(meta, PrefixKey(metric, i)).info.None?)
  }

  /** `create` of a plain metric files it, provided no row above it holds
      an info record. */
  lemma CreatedFiled(meta: MetaTable, metric: string, info: Info)
    requires PlainMetric(metric)
    requires forall i :: 0 <= i < |Segments(metric)| - 1 ==> GetRow(meta, PrefixKey(metric, i)).info.None?
    ensures Filed(Created(meta, metric, info), metric)
  {
    var r := Created(meta, metric, info);
    CreatedFacts(meta, metric, info);
    forall i | 0 <= i < |Segments(metric)| - 1
      ensures GetRow(r, PrefixKey(metric, i)).info.None?
    {
      PrefixAbove(metric, i);
    }
  }

  /** A filed metric stays filed when a metric with a name at least as long
      is created: its links and rows are kept, and the new info record
      lands on a row that is not above it. */
  lemma FiledKept(meta: MetaTable, m: string, metric: string, info: Info)
    requires Filed(meta, m) && |m| <= |metric|
    ensures Filed(Created(meta, metric, info), m)
  {
    var r := Created(meta, metric, info);
    var links := Links(Segments(m));
    CreatedFacts(meta, metric, info);
    RowExistsKept(meta, metric, info, MetricKey(m));
    forall i | 0 <= i < |Segments(m)|
      ensures HasLink(r, links[i])
    {
      assert HasLink(meta, links[i]);
      assert links[i].parent in meta;
    }
    forall i | 0 <= i < |Segments(m)| - 1
      ensures GetRow(r, PrefixKey(m, i)).info.None?
    {
      PrefixAbove(m, i);
    }
  }

  /** The first segment of a filed metric of several segments is filed
      too: ROOT links to its row, which holds the link to the next segment. */
  lemma FiledTop(meta: MetaTable, metric: string)
    requires Filed(meta, metric) && |Segments(metric)| >= 2
    ensures Filed(meta, Segments(metric)[0]) && Segments(Segments(metric)[0]) == [Segments(metric)[0]]
  {
    var parts := Segments(metric);
    var top := parts[0];
    SplitNone(top, '.');
    assert PlainMetric(top);
    LinkAtFacts(parts, 0);
    LinkAtFacts(parts, 1);
    assert parts[..1] == [top];
    assert Links(parts)[0] == LinkAt(parts, 0) == LinkAt([top], 0) == Links([top])[0];
    assert HasLink(meta, Links(parts)[1]) && Links(parts)[1] == LinkAt(parts, 1);
    var row := GetRow(meta, MetricKey(top));
    assert LinkPrefix + parts[1] in row.cells;
    assert MetricKey(top) in meta;
  }

  /** `create` of a plain metric makes it reachable from ROOT by any
      patterns selecting its segments, provided no row above it holds an
      info record. */
  lemma CreatedReaches(meta: MetaTable, metric: string, info: Info, patterns: seq<string>)
    requires CanonicalLinks(meta) && PlainMetric(metric)
    requires |patterns| == |Segments(metric)|
    requires forall i :: 0 <= i < |patterns| ==> Selects(patterns[i], Segments(metric)[i])
    requires forall i :: 0 <= i < |Segments(metric)| - 1 ==> GetRow(meta, PrefixKey(metric, i)).info.None?
    ensures Reaches(Created(meta, metric, info), RootKey, patterns, MetricKey(metric))
  {
    CreatedCanonical(meta, metric, info);
    CreatedFiled(meta, metric, info);
    LinkedPathReaches(Created(meta, metric, info), metric, patterns);
  }

  /** `find_nodes(FindQuery(query))` over a table keeping both invariants
      yields a node for a filed metric whose segments the query's patterns
      select, named by the metric's path. */
  lemma FiledFound(meta: MetaTable, metric: string, query: string)
    requires LinksResolve(meta) && CanonicalLinks(meta) && Filed(meta, metric) && '_' !in metric
    requires var ps := Split(RemoveChar(query, '\\'), '.');
             |ps| == |Segments(metric)| && forall i :: 0 <= i < |ps| ==> Selects(ps[i], Segments(metric)[i])
    ensures exists n :: n in FindNodes(meta, query).nodes && n.path == metric
  {
    var ps := Split(RemoveChar(query, '\\'), '.');
    FindNoError(meta, RootKey, ps);
    LinkedPathReaches(meta, metric, ps);
    FindComplete(meta, RootKey, ps, MetricKey(metric));
    var n :| n in FindNodes(meta, query).nodes && Reports(meta, MetricKey(metric), n);
    SecondFieldOfPrefixed("m_", metric);
  }

  // ---------------------------------------------------------------------
  // What discovery can find

  /** The row key of the path made of `names`. */
  function PathKey(names: seq<string>): string {
    MetricKey(Join(names, '.'))
  }

  /** Following link `name` from ROOT or from the row of path `above`
      leads to the row of the path extended by `name`. */
  lemma ChildOfPath(above: seq<string>, name: string)
    ensures ChildKey(if above == [] then RootKey else PathKey(above), name) == PathKey(above + [name])
  {
    if above == [] {
      assert [] + [name] == [name];
    } else {
      var whole := above + [name];
      assert whole[..|above|] == above;
      assert PathKey(above)[0] == 'm';
    }
  }

  /** The first `k` names after `above` are `above` extended by the first
      name, then the first `k - 1` names of the rest. */
  lemma MovedName(above: seq<string>, name: string, rest: seq<string>, k: nat)
    requires 0 < k <= |rest| + 1
    ensures above + ([name] + rest)[..k] == (above + [name]) + rest[..k - 1]
    ensures above + ([name] + rest) == (above + [name]) + rest
  {
    assert ([name] + rest)[..k] == [name] + rest[..k - 1];
  }

  /** Under `CanonicalLinks`, a matched child of ROOT or of the row of path
      `above` is the row of that path extended by one plain name. */
  lemma LinkStep(meta: MetaTable, above: seq<string>, pattern: string, child: string) returns (name: string)
    requires CanonicalLinks(meta)
    requires RowExists(meta, if above == [] then RootKey else PathKey(above))
    requires MatchedChild(meta, if above == [] then RootKey else PathKey(above), pattern, child)
    ensures name != "" && '_' !in name && '.' !in name && child == PathKey(above + [name])
  {
    var key := if above == [] then RootKey else PathKey(above);
    var pairs := Subnodes(meta[key]);
    name :| name in Firsts(pairs) && Selects(pattern, name) && Lookup(pairs, name) == child;
    LookupCanonical(meta, key, name);
    ChildOfPath(above, name);
  }

  /** Under `CanonicalLinks`, whatever patterns reach from ROOT or from a
      path row is the row of that path extended by one plain name per
      pattern, through rows that hold no info. */
  lemma {:induction false} ReachedPath(meta: MetaTable, above: seq<string>, ps: seq<string>, target: string)
    returns (names: seq<string>)
    requires CanonicalLinks(meta) && |ps| > 0
    requires Reaches(meta, if above == [] then RootKey else PathKey(above), ps, target)
    ensures |names| == |ps|
    ensures forall k :: 0 <= k < |names| ==> names[k] != "" && '_' !in names[k] && '.' !in names[k]
    ensures target == PathKey(above + names)
    ensures forall k :: 0 < k < |names| ==> GetRow(meta, PathKey(above + names[..k])).info.None?
    decreases |ps|
  {
    var key := if above == [] then RootKey else PathKey(above);
    if |ps| == 1 {
      var name := LinkStep(meta, above, ps[0], target);
      names := [name];
    } else {
      var child :| MatchedChild(meta, key, ps[0], child) && RowExists(meta, child) && meta[child].info.None? &&
                   Reaches(meta, child, ps[1..], target);
      var name := LinkStep(meta, above, ps[0], child);
      var rest := ReachedPath(meta, above + [name], ps[1..], target);
      names := [name] + rest;
      MovedName(above, name, rest, |names|);
      forall k | 0 < k < |names|
        ensures GetRow(meta, PathKey(above + names[..k])).info.None?
      {
        MovedName(above, name, rest, k);
      }
    }
  }

  /** Under `CanonicalLinks`, every node `find_nodes` yields reports the row
      `m_` and its path, the path is a plain metric, and no row above it
      holds an info record. */
  lemma FoundNodeFacts(meta: MetaTable, query: string, n: FoundNode)
    requires CanonicalLinks(meta) && n in FindNodes(meta, query).nodes
    ensures Reports(meta, MetricKey(n.path), n) && PlainMetric(n.path)
    ensures forall k :: 0 <= k < |Segments(n.path)| - 1 ==> GetRow(meta, PrefixKey(n.path, k)).info.None?
  {
    var ps := Split(RemoveChar(query, '\\'), '.');
    FindSound(meta, RootKey, ps, n);
    var target :| Reaches(meta, RootKey, ps, target) && Reports(meta, target, n);
    var names := ReachedPath(meta, [], ps, target);
    assert [] + names == names;
    JoinFree(names, '.', '_');
    SecondFieldOfPrefixed("m_", Join(names, '.'));
    SplitJoin(names, '.');
    forall k | 0 <= k < |names| - 1
      ensures GetRow(meta, PrefixKey(n.path, k)).info.None?
    {
      PrefixOfPath(n.path, names, k);
    }
  }

  /** The prefix through segment `k` of a path split into `names` is the
      path made of the first `k + 1` names. */
  lemma PrefixOfPath(path: string, names: seq<string>, k: nat)
    requires Segments(path) == names && k < |names|
    ensures PrefixKey(path, k) == PathKey([] + names[..k + 1])
  {
    assert [] + names[..k + 1] == names[..k + 1];
  }

  /** Under `LinksResolve`, `find_nodes` raises nothing, whatever the query. */
  lemma FindNodesNoError(meta: MetaTable, query: string)
    requires LinksResolve(meta)
    ensures FindNodes(meta, query).error.None?
  {
    FindNoError(meta, RootKey, Split(RemoveChar(query, '\\'), '.'));
  }

  /** A metric below another metric is never found: while patterns remain,
      `_find_paths` does not descend into a row holding `cf:INFO`. */
  lemma BuriedNotFound(meta: MetaTable, metric: string, query: string, i: nat)
    requires CanonicalLinks(meta)
    requires i < |Segments(metric)| - 1 && GetRow(meta, PrefixKey(metric, i)).info.Some?
    ensures forall n :: n in FindNodes(meta, query).nodes ==> n.path != metric
  {
    forall n | n in FindNodes(meta, query).nodes
      ensures n.path != metric
    {
      FoundNodeFacts(meta, query, n);
    }
  }

  // ---------------------------------------------------------------------
  // A link name with `_` shadows another

  /** The segments of the two names of the example. */
  lemma ShadowSegments(m1: string, m2: string)
    requires m1 == "x.z" && m2 == "x_y"
    ensures Segments(m1) == ["x", "z"] && Segments(m2) == ["x_y"]
  {
    SplitFirst(m1, '.', "x", "z");
    SplitNone("z", '.');
    SplitNone(m2, '.');
  }

  /** `create("x.z")` then `create("x_y")` on an empty table: ROOT holds
      the links `cf:c_x` and `cf:c_x_y`, and row `m_x_y` holds an info record. */
  lemma ShadowTable(m1: string, m2: string, i1: Info, i2: Info)
    requires Segments(m1) == ["x", "z"] && Segments(m2) == ["x_y"] && m2 == "x_y"
    ensures var t := Created(Created(map[], m1, i1), m2, i2);
            && RootKey in t && t[RootKey].cells == map[LinkPrefix + "x" := "m_x", LinkPrefix + "x_y" := "m_x_y"]
            && "m_x_y" in t && t["m_x_y"].info == Some(i2)
  {
    var l1 := Links(["x", "z"]);
    assert l1[0] == Link(RootKey, "x", "m_x");
    assert l1[..1] == [l1[0]];
    var t0 := WriteInfo(map[], MetricKey(m1), i1);
    var t1 := Created(map[], m1, i1);
    EnsureLinksNext(t0, l1, 0);
    EnsureLinksNext(t0, l1, 1);
    assert l1[..0] == [] && l1[..2] == l1;
    assert t1 == AddLink(AddLink(t0, l1[0]), l1[1]);
    var l2 := Links(["x_y"]);
    assert l2[0] == Link(RootKey, "x_y", "m_x_y");
    EnsureLinksNext(WriteInfo(t1, MetricKey(m2), i2), l2, 0);
    assert l2[..0] == [] && l2[..1] == l2;
    assert Created(t1, m2, i2) == AddLink(WriteInfo(t1, MetricKey(m2), i2), l2[0]);
  }

  /** ROOT's two columns in ascending order. */
  lemma ColumnsSorted(a: string, b: string)
    requires a == LinkPrefix + "x" && b == a + "_y"
    ensures SortedSet({a, b}) == [a, b]
  {
    StrLePrefix(a, "_y");
    StrLeReflexive(a);
    SortedSetCons(a, {a, b});
    assert {a, b} - {a} == {b};
    StrLeReflexive(b);
    SortedSetCons(b, {b});
    assert {b} - {b} == {};
  }

  /** Both columns have `x` as their second `_`-field. */
  lemma ColumnNames(a: string, b: string)
    requires a == LinkPrefix + "x" && b == LinkPrefix + "x_y"
    ensures SecondField(a) == Some("x") && SecondField(b) == Some("x")
  {
    SecondFieldOfPrefixed(LinkPrefix, "x");
    SplitFirst(b, '_', "cf:c", "x_y");
    SplitFirst("x_y", '_', "x", "y");
  }

  /** `subnodes` at ROOT lists `x` twice; the later pair, to `m_x_y`, is the one kept. */
  lemma RootPairs(t: MetaTable)
    requires RootKey in t && t[RootKey].cells == map[LinkPrefix + "x" := "m_x", LinkPrefix + "x_y" := "m_x_y"]
    ensures Subnodes(t[RootKey]) == [("x", "m_x"), ("x", "m_x_y")]
  {
    var a, b := LinkPrefix + "x", LinkPrefix + "x_y";
    ColumnsSorted(a, b);
    ColumnNames(a, b);
    var cells := t[RootKey].cells;
    assert cells.Keys == {a, b};
    assert StartsWith(a, LinkPrefix) && StartsWith(b, LinkPrefix);
    assert [a, b][..1] == [a] && [a][..0] == [];
    assert LinkPairs([a], cells) == [("x", "m_x")];
  }

  /** A pattern without wildcards or braces, over itself alone, matches itself once. */
  lemma MatchLiteral(x: string)
    requires '*' !in x && '?' !in x && '{' !in x
    ensures MatchEntries([x], x) == [x]
  {
    LiteralMatchesOnlyItself(x, x);
    assert [x][1..] == [];
    assert Filter([x], x) == [x];
    var r := Sort([x]);
    assert |r| == |multiset(r)| == 1;
    assert r[0] in multiset(r);
  }

  /** A literal name listed twice is matched once, and looked up to the
      later pair's row. */
  lemma ShadowMatching(pairs: seq<(string, string)>, x: string, first: string, shadow: string)
    requires pairs == [(x, first), (x, shadow)]
    requires '*' !in x && '?' !in x && '{' !in x
    ensures x in Firsts(pairs)
    ensures MatchEntries(Dedup(Firsts(pairs)), x) == [x] && Lookup(pairs, x) == shadow
  {
    assert Firsts(pairs) == [x, x];
    assert Dedup(Firsts(pairs)) == [x];
    MatchLiteral(x);
  }

  /** While a pattern remains, a single matching name leading to a row
      with info yields nothing. */
  lemma SkipInfoChild(t: MetaTable, pairs: seq<(string, string)>, x: string, z: string, shadow: string)
    requires x in Firsts(pairs) && Lookup(pairs, x) == shadow
    requires shadow in t && t[shadow].info.Some?
    ensures Descend(t, pairs, [x], [z]) == Nothing
  {
    assert [x][1..] == [];
    assert Visit(t, shadow, [z]) == Nothing;
  }

  /** Searching `x.z` from a ROOT whose only name matching `x` leads to a
      row with info: that row is skipped while a pattern remains, so
      nothing is yielded and nothing raised. */
  lemma ShadowFind(t: MetaTable, query: string, pairs: seq<(string, string)>, x: string, z: string, shadow: string)
    requires RootKey in t && RowExists(t, RootKey) && Subnodes(t[RootKey]) == pairs
    requires x in Firsts(pairs) && MatchEntries(Dedup(Firsts(pairs)), x) == [x] && Lookup(pairs, x) == shadow
    requires shadow in t && t[shadow].info.Some?
    requires Split(RemoveChar(query, '\\'), '.') == [x, z]
    ensures FindNodes(t, query) == Found([], None)
  {
    SkipInfoChild(t, pairs, x, z, shadow);
    assert [x, z][1..] == [z];
  }

  /** A `_` in one name can hide another metric: after `create("x.z")` and
      `create("x_y")` both ROOT links are read under the name `x`, the one
      to `m_x_y` wins, and `find_nodes("x.z")` yields nothing although
      every link resolves. The table breaks `CanonicalLinks` through the
      link name `x_y`. */
  lemma UnderscoreShadows(m1: string, m2: string, query: string, i1: Info, i2: Info)
    requires m1 == "x.z" && m2 == "x_y" && query == "x.z"
    ensures var t := Created(Created(map[], m1, i1), m2, i2);
            && LinksResolve(t) && !CanonicalLinks(t)
            && GetRow(t, MetricKey(m1)).info == Some(i1)
            && FindNodes(t, query) == Found([], None)
  {
    ShadowSegments(m1, m2);
    ShadowQuery(m1, query);
    var t := Created(Created(map[], m1, i1), m2, i2);
    TwoCreated(m1, m2, i1, i2);
    ShadowTable(m1, m2, i1, i2);
    ShadowNotCanonical(t);
    RootPairs(t);
    var pairs := Subnodes(t[RootKey]);
    ShadowMatching(pairs, "x", "m_x", "m_x_y");
    ShadowFind(t, query, pairs, "x", "z", "m_x_y");
  }

  /** The query of the example splits as the metric does. */
  lemma ShadowQuery(m1: string, query: string)
    requires query == m1 && m1 == "x.z"
    ensures Split(RemoveChar(query, '\\'), '.') == Segments(m1)
  {
    RemoveAbsent(query, '\\');
  }

  /** Two creates of names with non-empty first segments, on an empty
      table: links resolve, and the first metric keeps its info when the
      second has another row. */
  lemma TwoCreated(m1: string, m2: string, i1: Info, i2: Info)
    requires Segments(m1)[0] != "" && Segments(m2)[0] != "" && m1 != m2
    ensures var t := Created(Created(map[], m1, i1), m2, i2);
            LinksResolve(t) && GetRow(t, MetricKey(m1)).info == Some(i1)
  {
    var t1 := Created(map[], m1, i1);
    EmptyTree();
    CreatedLinksResolve(map[], m1, i1);
    CreatedLinksResolve(t1, m2, i2);
    CreatedFacts(map[], m1, i1);
    CreatedFacts(t1, m2, i2);
    assert MetricKey(m1)[2..] == m1;
  }

  /** A link named `x_y` on ROOT breaks `CanonicalLinks`. */
  lemma ShadowNotCanonical(t: MetaTable)
    requires RootKey in t && LinkPrefix + "x_y" in t[RootKey].cells
    ensures !CanonicalLinks(t)
  {
    var col := LinkPrefix + "x_y";
    LinkColumnName("x_y");
    assert LinkName(col)[1] == '_';
  }
}
