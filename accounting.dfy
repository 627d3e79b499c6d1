/**
 * What the flattened forest says about the rows it was built from: every
 * row with a label path shows up as one URL leaf, under the node its path
 * ends at, and every other row is among the problematic URLs; and a node's
 * count is the rows that end at it plus the counts of its children.
 */
module Accounting {
  import opened Text
  import opened TreeBuilder
  import opened Markmap

  /** The names of the URL leaves anywhere in a forest, with multiplicity. */
  ghost function LeafNames(forest: seq<OutNode>): multiset<string>
    decreases forest
  {
    if forest == [] then multiset{} else LeafNamesOf(forest[0]) + LeafNames(forest[1..])
  }

  ghost function LeafNamesOf(n: OutNode): multiset<string>
    decreases n
  {
    match n
    case Leaf(u) => multiset{u}
    case Branch(_, kids) => LeafNames(kids)
  }

  lemma {:induction false} LeafNamesConcat(a: seq<OutNode>, b: seq<OutNode>)
    ensures LeafNames(a + b) == LeafNames(a) + LeafNames(b)
  {
    if a == [] {
      assert a + b == b;
    } else {
      assert (a + b)[1..] == a[1..] + b;
      LeafNamesConcat(a[1..], b);
    }
  }

  lemma {:induction false} LeafNamesOfLeaves(urls: seq<string>)
    ensures LeafNames(Leaves(urls)) == multiset(urls)
  {
    if urls != [] {
      assert Leaves(urls)[1..] == Leaves(urls[1..]);
      LeafNamesOfLeaves(urls[1..]);
      assert urls == [urls[0]] + urls[1..];
    }
  }

  /** The "URLs" group of a node holds exactly the node's URLs as leaves. */
  lemma UrlGroupLeaves(urls: seq<string>)
    ensures LeafNames(UrlGroup(urls)) == multiset(urls)
  {
    if urls != [] {
      LeafNamesOfLeaves(Sort(urls));
      assert UrlGroup(urls)[1..] == [];
    }
  }

  /** All URLs of the rows, in row order. */
  ghost function Urls(rows: seq<Row>): seq<string>
  {
    if rows == [] then [] else Urls(rows[..|rows| - 1]) + [rows[|rows| - 1].url]
  }

  /** The URL key is unique across rows (the loader drops duplicates). */
  ghost predicate UniqueUrls(rows: seq<Row>)
  {
    forall i, j :: 0 <= i < j < |rows| ==> rows[i].url != rows[j].url
  }

  /** Rows split between two disjoint relations whose union is a third. */
  lemma {:induction false} UrlsWhereSplit(rows: seq<Row>, whole: Relation, left: Relation, right: Relation)
    requires forall path :: Holds(whole, path) <==> Holds(left, path) || Holds(right, path)
    requires forall path :: !(Holds(left, path) && Holds(right, path))
    ensures multiset(UrlsWhere(rows, whole)) == multiset(UrlsWhere(rows, left)) + multiset(UrlsWhere(rows, right))
    decreases |rows|
  {
    if rows != [] {
      UrlsWhereSplit(rows[..|rows| - 1], whole, left, right);
    }
  }

  /** The rows through a node are those ending there and those going on. */
  lemma PassesThroughSplit(rows: seq<Row>, q: Path)
    requires q != []
    ensures multiset(UrlsWhere(rows, PassesThrough(q)))
         == multiset(UrlsWhere(rows, EndsAt(q))) + multiset(UrlsWhere(rows, GoesBelow(q)))
  {
    UrlsWhereSplit(rows, PassesThrough(q), EndsAt(q), GoesBelow(q));
  }

  /** Every row either has a label path (it goes below the root) or is
      problematic. */
  lemma {:induction false} RootSplit(rows: seq<Row>)
    ensures multiset(UrlsWhere(rows, GoesBelow([]))) + multiset(Problematic(rows)) == multiset(Urls(rows))
    decreases |rows|
  {
    if rows != [] {
      RootSplit(rows[..|rows| - 1]);
    }
  }

  lemma {:induction false} UrlsWhereHas(rows: seq<Row>, rel: Relation, i: nat)
    requires i < |rows| && Holds(rel, PathOf(rows[i]))
    ensures rows[i].url in UrlsWhere(rows, rel)
    decreases |rows|
  {
    if i < |rows| - 1 {
      UrlsWhereHas(rows[..|rows| - 1], rel, i);
    }
  }

  lemma {:induction false} UniqueOnce(rows: seq<Row>, i: nat)
    requires UniqueUrls(rows) && i < |rows|
    ensures multiset(Urls(rows))[rows[i].url] == 1
    decreases |rows|
  {
    var init := rows[..|rows| - 1];
    var u := rows[i].url;
    if i < |rows| - 1 {
      UniqueOnce(init, i);
      assert rows[|rows| - 1].url != u;
    } else {
      UrlsAbsent(init, u);
    }
  }

  lemma {:induction false} UrlsAbsent(rows: seq<Row>, u: string)
    requires forall k :: 0 <= k < |rows| ==> rows[k].url != u
    ensures multiset(Urls(rows))[u] == 0
    decreases |rows|
  {
    if rows != [] {
      UrlsAbsent(rows[..|rows| - 1], u);
    }
  }

  lemma {:induction false} VisitedHas(rows: seq<Row>, i: nat, k: nat)
    requires i < |rows| && 1 <= k <= |PathOf(rows[i])|
    ensures PathOf(rows[i])[..k] in Visited(rows)
    decreases |rows|
  {
    if i < |rows| - 1 {
      VisitedHas(rows[..|rows| - 1], i, k);
    } else {
      PrefixesMeaning(PathOf(rows[i]), PathOf(rows[i])[..k]);
    }
  }

  /** The URLs of the rows through each of the children `labels` of `p`. */
  ghost function SumUnder(rows: seq<Row>, p: Path, labels: seq<string>): multiset<string>
  {
    if labels == [] then multiset{}
    else multiset(UrlsWhere(rows, PassesThrough(p + [labels[0]]))) + SumUnder(rows, p, labels[1..])
  }

  /** The URL of row `r` once for each child in `labels` its path visits. */
  ghost function Hits(r: Row, p: Path, labels: seq<string>): multiset<string>
  {
    if labels == [] then multiset{}
    else
      var hit := if Holds(PassesThrough(p + [labels[0]]), PathOf(r)) then multiset{r.url} else multiset{};
      hit + Hits(r, p, labels[1..])
  }

  lemma {:induction false} SumUnderSnoc(rows: seq<Row>, r: Row, p: Path, labels: seq<string>)
    ensures SumUnder(rows + [r], p, labels) == SumUnder(rows, p, labels) + Hits(r, p, labels)
  {
    if labels != [] {
      UrlsWhereSnoc(rows, r, PassesThrough(p + [labels[0]]));
      SumUnderSnoc(rows, r, p, labels[1..]);
    }
  }

  lemma ChildOnPath(p: Path, l: string, path: Path)
    ensures Holds(PassesThrough(p + [l]), path) <==> p < path && path[|p|] == l
  {
    var c := p + [l];
    assert c[..|p|] == p && c[|p|] == l;
    if p < path && path[|p|] == l {
      assert path[..|c|] == path[..|p|] + [path[|p|]];
    }
    if c <= path {
      assert path[..|p|] == c[..|p|];
    }
  }

  /** A path visits at most one of a set of distinct children. */
  lemma {:induction false} HitsOnce(r: Row, p: Path, labels: seq<string>)
    requires StrictlyAscending(labels)
    ensures var path := PathOf(r);
      Hits(r, p, labels) == if p < path && path[|p|] in labels then multiset{r.url} else multiset{}
  {
    if labels != [] {
      var path := PathOf(r);
      ChildOnPath(p, labels[0], path);
      assert StrictlyAscending(labels[1..]);
      HitsOnce(r, p, labels[1..]);
      assert labels[0] !in labels[1..];
      assert labels == [labels[0]] + labels[1..];
    }
  }

  /** Base case of `Partition`: with no rows, every child's share is empty. */
  lemma {:induction false} SumUnderNoRows(p: Path, labels: seq<string>)
    ensures SumUnder([], p, labels) == multiset{}
  {
    if labels != [] {
      SumUnderNoRows(p, labels[1..]);
    }
  }

  /** Splitting the rows below `p` by their next label loses none and
      counts none twice. */
  lemma {:induction false} Partition(rows: seq<Row>, p: Path, labels: seq<string>)
    requires StrictlyAscending(labels)
    requires forall i :: 0 <= i < |rows| && p < PathOf(rows[i]) ==> PathOf(rows[i])[|p|] in labels
    ensures SumUnder(rows, p, labels) == multiset(UrlsWhere(rows, GoesBelow(p)))
    decreases |rows|
  {
    if rows == [] {
      SumUnderNoRows(p, labels);
    } else {
      var init, r := rows[..|rows| - 1], rows[|rows| - 1];
      assert rows == init + [r];
      assert forall i :: 0 <= i < |init| ==> init[i] == rows[i];
      Partition(init, p, labels);
      assert p < PathOf(r) ==> PathOf(r)[|p|] in labels by {
        assert r == rows[|rows| - 1];
      }
      SumUnderSnoc(init, r, p, labels);
      HitsOnce(r, p, labels);
      UrlsWhereSnoc(init, r, GoesBelow(p));
    }
  }

  /** A row whose path goes below `p` visits the child of `p` it names next. */
  lemma RowVisitsChild(rows: seq<Row>, i: nat, p: Path)
    requires i < |rows| && p < PathOf(rows[i])
    ensures p + [PathOf(rows[i])[|p|]] in Visited(rows)
  {
    var path := PathOf(rows[i]);
    VisitedHas(rows, i, |p| + 1);
    NextPrefix(path, p);
  }

  lemma NextPrefix(path: Path, p: Path)
    requires p < path
    ensures path[..|p| + 1] == p + [path[|p|]]
  {
    assert path[..|p|] == p;
  }

  /** The children of `p` in the built tree cover every row below `p`. */
  lemma ChildrenCoverRows(rows: seq<Row>, p: Path)
    ensures var nodes := Folded(rows);
      forall i :: 0 <= i < |rows| && p < PathOf(rows[i]) ==> PathOf(rows[i])[|p|] in SortSet(ChildLabels(nodes, p))
  {
    var nodes := Folded(rows);
    var kids := SortSet(ChildLabels(nodes, p));
    ChildLabelsMeaning(nodes, p);
    forall i | 0 <= i < |rows| && p < PathOf(rows[i])
      ensures PathOf(rows[i])[|p|] in kids
    {
      RowVisitsChild(rows, i, p);
    }
  }

  /** The URL leaves under the output for the children of `p` are the
      URLs of the rows whose path goes below `p`. */
  lemma FlattenLeaves(rows: seq<Row>, p: Path)
    ensures LeafNames(Flatten(Folded(rows), p)) == multiset(UrlsWhere(rows, GoesBelow(p)))
    decreases |Below(Folded(rows), p)|, 1, 0
  {
    var nodes := Folded(rows);
    var labels := SortSet(ChildLabels(nodes, p));
    ChildLabelsMeaning(nodes, p);
    FlattenChildrenLeaves(rows, p, labels);
    ChildrenCoverRows(rows, p);
    Partition(rows, p, labels);
  }

  lemma FlattenChildrenLeaves(rows: seq<Row>, p: Path, labels: seq<string>)
    requires forall l :: l in labels ==> p + [l] in Folded(rows)
    ensures LeafNames(FlattenChildren(Folded(rows), p, labels)) == SumUnder(rows, p, labels)
    decreases |Below(Folded(rows), p)|, 0, |labels|
  {
    if labels != [] {
      var nodes := Folded(rows);
      var q := p + [labels[0]];
      var n := CategoryNode(nodes, q, labels[0]);
      var rest := FlattenChildren(nodes, p, labels[1..]);
      BelowShrinks(nodes, p, labels[0]);
      CategoryNodeLeaves(rows, q, labels[0]);
      FlattenChildrenLeaves(rows, p, labels[1..]);
      assert FlattenChildren(nodes, p, labels) == [n] + rest;
      LeafNamesConcat([n], rest);
      assert LeafNames([n]) == LeafNamesOf(n);
    }
  }

  /** The URL leaves under a category node are the URLs of the rows
      through it. */
  lemma CategoryNodeLeaves(rows: seq<Row>, q: Path, l: string)
    requires q in Folded(rows)
    ensures LeafNamesOf(CategoryNode(Folded(rows), q, l)) == multiset(UrlsWhere(rows, PassesThrough(q)))
    decreases |Below(Folded(rows), q)|, 2, 0
  {
    var nodes := Folded(rows);
    FlattenLeaves(rows, q);
    LeafNamesConcat(Flatten(nodes, q), UrlGroup(nodes[q].urls));
    UrlGroupLeaves(nodes[q].urls);
    PrefixesNonEmpty(rows, q);
    PassesThroughSplit(rows, q);
  }

  /** Every URL of the input is a leaf of the output or problematic, and
      the two together are the input's URLs exactly, with multiplicity. */
  lemma UrlAccounting(rows: seq<Row>)
    ensures LeafNames(Flatten(Folded(rows), [])) + multiset(Problematic(rows)) == multiset(Urls(rows))
  {
    FlattenLeaves(rows, []);
    RootSplit(rows);
  }

  /** With unique URLs, a row's URL is exactly one leaf of the output when
      the row has a label path, and otherwise is problematic and no leaf. */
  lemma EachUrlOnce(rows: seq<Row>, i: nat)
    requires UniqueUrls(rows) && i < |rows|
    ensures var u, leaves := rows[i].url, LeafNames(Flatten(Folded(rows), []));
      && (PathOf(rows[i]) == [] ==> u in Problematic(rows) && leaves[u] == 0)
      && (PathOf(rows[i]) != [] ==> u !in Problematic(rows) && leaves[u] == 1)
  {
    var u := rows[i].url;
    UrlAccounting(rows);
    UniqueOnce(rows, i);
    if PathOf(rows[i]) == [] {
      UrlsWhereHas(rows, EndsAt([]), i);
    } else {
      UrlsWhereHas(rows, GoesBelow([]), i);
      FlattenLeaves(rows, []);
    }
  }

  /** The counts of the children named by `labels`. */
  ghost function SumCounts(nodes: Nodes, p: Path, labels: seq<string>): nat
    requires forall l :: l in labels ==> p + [l] in nodes
  {
    if labels == [] then 0 else nodes[p + [labels[0]]].count + SumCounts(nodes, p, labels[1..])
  }

  lemma {:induction false} SumCountsSize(rows: seq<Row>, p: Path, labels: seq<string>)
    requires forall l :: l in labels ==> p + [l] in Folded(rows)
    ensures SumCounts(Folded(rows), p, labels) == |SumUnder(rows, p, labels)|
  {
    if labels != [] {
      SumCountsSize(rows, p, labels[1..]);
    }
  }

  /** The counts of the children of `q` add up to the rows whose path goes
      on below `q`. */
  lemma ChildCountsTotal(rows: seq<Row>, q: Path)
    ensures var nodes := Folded(rows);
      var kids := SortSet(ChildLabels(nodes, q));
      && (forall l :: l in kids ==> q + [l] in nodes)
      && SumCounts(nodes, q, kids) == |UrlsWhere(rows, GoesBelow(q))|
  {
    var nodes := Folded(rows);
    var kids := SortSet(ChildLabels(nodes, q));
    ChildLabelsMeaning(nodes, q);
    ChildrenCoverRows(rows, q);
    Partition(rows, q, kids);
    SumCountsSize(rows, q, kids);
  }

  /** A node's count is the number of rows ending at it plus the counts of
      its children. */
  lemma CountSumsChildren(rows: seq<Row>, q: Path)
    requires q in Folded(rows)
    ensures var nodes := Folded(rows);
      var kids := SortSet(ChildLabels(nodes, q));
      && (forall l :: l in kids ==> q + [l] in nodes)
      && nodes[q].count == |nodes[q].urls| + SumCounts(nodes, q, kids)
  {
    ChildCountsTotal(rows, q);
    PrefixesNonEmpty(rows, q);
    CountSplit(rows, q);
  }

  /** At the root, the top-level counts add up to the rows that have a
      label path: every other row is problematic. */
  lemma RootCountsCoverRows(rows: seq<Row>)
    ensures var nodes := Folded(rows);
      var kids := SortSet(ChildLabels(nodes, []));
      && (forall l :: l in kids ==> [] + [l] in nodes)
      && |rows| == |Problematic(rows)| + SumCounts(nodes, [], kids)
  {
    ChildCountsTotal(rows, []);
    RootSplit(rows);
    UrlsLength(rows);
    assert |multiset(Urls(rows))| == |Urls(rows)|;
    assert |multiset(Problematic(rows))| == |Problematic(rows)|;
    assert |multiset(UrlsWhere(rows, GoesBelow([])))| == |UrlsWhere(rows, GoesBelow([]))|;
  }

  lemma {:induction false} UrlsLength(rows: seq<Row>)
    ensures |Urls(rows)| == |rows|
    decreases |rows|
  {
    if rows != [] {
      UrlsLength(rows[..|rows| - 1]);
    }
  }

  lemma CountSplit(rows: seq<Row>, q: Path)
    requires q != []
    ensures Through(rows, q) == |UrlsWhere(rows, EndsAt(q))| + |UrlsWhere(rows, GoesBelow(q))|
  {
    PassesThroughSplit(rows, q);
    assert |multiset(UrlsWhere(rows, PassesThrough(q)))| == |UrlsWhere(rows, PassesThrough(q))|;
    assert |multiset(UrlsWhere(rows, EndsAt(q)))| == |UrlsWhere(rows, EndsAt(q))|;
    assert |multiset(UrlsWhere(rows, GoesBelow(q)))| == |UrlsWhere(rows, GoesBelow(q))|;
  }

  /** A node counts at least the URLs stored at it. */
  lemma CountCoversUrls(rows: seq<Row>, q: Path)
    requires q in Folded(rows)
    ensures |Folded(rows)[q].urls| <= Folded(rows)[q].count
  {
    PrefixesNonEmpty(rows, q);
    CountSplit(rows, q);
  }
}
