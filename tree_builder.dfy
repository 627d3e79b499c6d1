/**
 * The tree builder of the URL taxonomy visualizer: each spreadsheet row
 * (a URL and the cells of columns L0..L7) yields a label path, rows with
 * an empty path are set aside as problematic, and every other row is
 * inserted into a category tree whose nodes carry a pass-through count
 * and the URLs that end there.
 *
 * The source keeps the tree as nested dictionaries, each node owning its
 * children. Because the tree is single-owner, a node is identified by its
 * label chain from the root, so the model stores the tree as one map from
 * that chain to the node's `count` and `urls`. The synthetic root is the
 * empty chain and is never stored (the source's root has neither field),
 * and a node's children are the stored chains one label longer.
 */
module TreeBuilder {

  datatype Option<T> = None | Some(value: T)

  /** The label columns L0..L7 the builder reads. */
  const LevelCount: nat := 8

  /** The cells of columns L0..L7 of one row; `None` is a missing value. */
  type Levels = s: seq<Option<string>> | |s| == LevelCount
    witness [None, None, None, None, None, None, None, None]

  datatype Row = Row(url: string, levels: Levels)

  /** A root-to-node chain of category labels. */
  type Path = seq<string>

  /** The mutable part of a tree node: rows passing through it, and the
      URLs of the rows whose path ends at it. */
  datatype Entry = Entry(count: nat, urls: seq<string>)

  type Nodes = map<Path, Entry>

  /** The present cells, in column order; missing cells are skipped and do
      not end the path. */
  function LabelPath(levels: seq<Option<string>>): (path: Path)
    ensures |path| <= |levels|
    ensures path == [] <==> forall i :: 0 <= i < |levels| ==> levels[i].None?
    ensures forall x :: x in path <==> Some(x) in levels
  {
    if levels == [] then []
    else
      var rest := LabelPath(levels[1..]);
      assert levels == [levels[0]] + levels[1..];
      match levels[0]
      case Some(l) => [l] + rest
      case None => rest
  }

  function PathOf(row: Row): (path: Path)
    ensures |path| <= LevelCount
  {
    LabelPath(row.levels)
  }

  /** Path derivation works column by column: the path of a split row is
      the paths of its parts joined. */
  lemma {:induction false} LabelPathConcat(a: seq<Option<string>>, b: seq<Option<string>>)
    ensures LabelPath(a + b) == LabelPath(a) + LabelPath(b)
  {
    if a == [] {
      assert a + b == b;
    } else {
      assert (a + b)[1..] == a[1..] + b;
      LabelPathConcat(a[1..], b);
    }
  }

  /** A missing L1 between a present L0 and L2 is skipped. */
  lemma MissingLevelSkipped(a: string, b: string)
    ensures LabelPath([Some(a), None, Some(b), None, None, None, None, None]) == [a, b]
  {
    var levels: seq<Option<string>> := [Some(a), None, Some(b), None, None, None, None, None];
    assert levels == [Some(a)] + [None] + [Some(b)] + [None, None, None, None, None];
    LabelPathConcat([Some(a)] + [None] + [Some(b)], [None, None, None, None, None]);
    LabelPathConcat([Some(a)] + [None], [Some(b)]);
    LabelPathConcat([Some(a)], [None]);
  }

  /** The nodes a path visits: its non-empty prefixes. */
  ghost function Prefixes(path: Path): set<Path>
    decreases |path|
  {
    if path == [] then {} else Prefixes(path[..|path| - 1]) + {path}
  }

  lemma {:induction false} PrefixesMeaning(path: Path, q: Path)
    ensures q in Prefixes(path) <==> q != [] && q <= path
    decreases |path|
  {
    if path != [] {
      var parent := path[..|path| - 1];
      PrefixesMeaning(parent, q);
      assert path == parent + [path[|path| - 1]];
      PrefixOfExtended(q, parent, path[|path| - 1]);
    }
  }

  /** A stored chain is non-empty and its parent is stored too (or is the
      root), so the map is a tree hanging from the root. */
  ghost predicate WellFormed(nodes: Nodes)
  {
    forall q :: q in nodes ==> q != [] && (|q| > 1 ==> q[..|q| - 1] in nodes)
  }

  function CountOf(nodes: Nodes, q: Path): nat
  {
    if q in nodes then nodes[q].count else 0
  }

  function UrlsOf(nodes: Nodes, q: Path): seq<string>
  {
    if q in nodes then nodes[q].urls else []
  }

  lemma PrefixOfExtended(q: Path, current: Path, component: string)
    ensures q <= current + [component] <==> q <= current || q == current + [component]
  {
    var child := current + [component];
    assert child[..|child|] == child;
    assert child[..|current|] == current;
    if q <= child && q != child {
      assert |q| < |child|;
      assert q == child[..|q|] == current[..|q|];
    }
  }

  lemma PrefixesExtended(current: Path, component: string)
    ensures Prefixes(current + [component]) == Prefixes(current) + {current + [component]}
  {
    assert (current + [component])[..|current|] == current;
  }

  /** `after` is `before` with one row of path `path` and URL `url` added:
      the nodes on the path exist (the missing ones created), each of them
      counts one more row, only the last one gains the URL, and every
      other node is as it was. */
  ghost predicate Inserted(before: Nodes, after: Nodes, path: Path, url: string)
  {
    && after.Keys == before.Keys + Prefixes(path)
    && (forall q :: q in after ==> after[q].count == CountOf(before, q) + (if q <= path then 1 else 0))
    && (forall q :: q in after ==> after[q].urls == UrlsOf(before, q) + (if q == path then [url] else []))
  }

  /** A node that the insertion creates has seen exactly that one row. */
  lemma InsertedCreatesWithOne(before: Nodes, after: Nodes, path: Path, url: string, q: Path)
    requires Inserted(before, after, path, url)
    requires q in after && q !in before
    ensures after[q].count == 1
    ensures after[q].urls == (if q == path then [url] else [])
  {
    PrefixesMeaning(path, q);
  }

  /** Insertion never replaces a node that was there: it keeps its URLs
      and its count, plus one if it lies on the path. */
  lemma InsertedKeepsExisting(before: Nodes, after: Nodes, path: Path, url: string, q: Path)
    requires Inserted(before, after, path, url)
    requires q in before
    ensures q in after
    ensures after[q].count == before[q].count + (if q <= path then 1 else 0)
    ensures after[q].urls[..|before[q].urls|] == before[q].urls
    ensures !(q <= path) ==> after[q] == before[q]
  {
  }

  /** The URL lands at the deepest node of the path and at no other one,
      and every node's count goes up by at most one. */
  lemma InsertedUrlPlacement(before: Nodes, after: Nodes, path: Path, url: string, q: Path)
    requires Inserted(before, after, path, url)
    requires q in after
    ensures |after[q].urls| == |UrlsOf(before, q)| + (if q == path then 1 else 0)
    ensures q == path ==> after[q].urls[|after[q].urls| - 1] == url
    ensures CountOf(before, q) <= after[q].count <= CountOf(before, q) + 1
  {
  }

  /** Insertion into a tree yields a tree. */
  lemma InsertedWellFormed(before: Nodes, after: Nodes, path: Path, url: string)
    requires WellFormed(before) && Inserted(before, after, path, url)
    ensures WellFormed(after)
  {
    forall q | q in after && q !in before ensures q != [] && (|q| > 1 ==> q[..|q| - 1] in after) {
      PrefixesMeaning(path, q);
      if |q| > 1 {
        PrefixesMeaning(path, q[..|q| - 1]);
      }
    }
  }

  /** An insertion has exactly one outcome. */
  lemma InsertedUnique(before: Nodes, a: Nodes, b: Nodes, path: Path, url: string)
    requires Inserted(before, a, path, url) && Inserted(before, b, path, url)
    ensures a == b
  {
    assert forall q :: q in a ==> a[q] == b[q];
  }

  /** The labels of the children of the node at `p`. */
  ghost function ChildLabels(nodes: Nodes, p: Path): set<string>
  {
    set q | q in nodes && |q| == |p| + 1 && q[..|p|] == p :: q[|p|]
  }

  lemma ChildLabelsMeaning(nodes: Nodes, p: Path)
    ensures forall l :: l in ChildLabels(nodes, p) <==> p + [l] in nodes
  {
    forall l ensures l in ChildLabels(nodes, p) <==> p + [l] in nodes {
      var c := p + [l];
      assert c[..|p|] == p && c[|p|] == l;
      if l in ChildLabels(nodes, p) {
        var q :| q in nodes && |q| == |p| + 1 && q[..|p|] == p && q[|p|] == l;
        assert q == q[..|p|] + [q[|p|]];
      }
    }
  }

  /** Insertion gives no new child to a node off the path. */
  lemma InsertedKeepsOffPathChildren(before: Nodes, after: Nodes, path: Path, url: string, q: Path)
    requires Inserted(before, after, path, url)
    requires !(q <= path)
    ensures ChildLabels(after, q) == ChildLabels(before, q)
  {
    ChildLabelsMeaning(before, q);
    ChildLabelsMeaning(after, q);
    forall l | q + [l] in Prefixes(path) ensures false {
      PrefixesMeaning(path, q + [l]);
    }
  }

  /** What the walk in `CategoryTree.Add` has done after reaching
      `current`: that chain's nodes exist and count one more row. */
  ghost predicate Walked(start: Nodes, nodes: Nodes, current: Path)
  {
    && WellFormed(nodes)
    && (current != [] ==> current in nodes)
    && nodes.Keys == start.Keys + Prefixes(current)
    && (forall q :: q in nodes ==> nodes[q].count == CountOf(start, q) + (if q <= current then 1 else 0))
    && (forall q :: q in nodes ==> nodes[q].urls == UrlsOf(start, q))
  }

  /** One step of the walk: create the child if missing, then count it. */
  lemma WalkStep(start: Nodes, nodes: Nodes, current: Path, component: string, next: Nodes)
    requires Walked(start, nodes, current)
    requires var child := current + [component];
      var e := if child in nodes then nodes[child] else Entry(0, []);
      next == nodes[child := e.(count := e.count + 1)]
    ensures Walked(start, next, current + [component])
  {
    var child := current + [component];
    PrefixesExtended(current, component);
    assert child !in Prefixes(current) by { PrefixesMeaning(current, child); }
    assert next.Keys == start.Keys + Prefixes(child);
    assert WellFormed(next) by {
      assert child[..|child| - 1] == current;
    }
    assert next[child].count == CountOf(start, child) + 1;
    assert next[child].urls == UrlsOf(start, child);
    forall q | q in next && q != child
      ensures next[q].count == CountOf(start, q) + (if q <= child then 1 else 0)
    {
      PrefixOfExtended(q, current, component);
    }
  }

  lemma TakeOneMore(path: Path, i: nat)
    requires i < |path|
    ensures path[..i] + [path[i]] == path[..i + 1]
  {
  }

  /** The walk's last step: the node reached gains the URL. */
  lemma WalkDone(start: Nodes, nodes: Nodes, path: Path, url: string, next: Nodes)
    requires path != [] && Walked(start, nodes, path)
    requires next == nodes[path := nodes[path].(urls := nodes[path].urls + [url])]
    ensures WellFormed(next) && Inserted(start, next, path, url)
  {
  }

  /** The category tree under construction (the source's `category_tree`). */
  class CategoryTree {
    /** The root's name; the root holds no count and no URLs. */
    const name: string

    /** Every node below the root, keyed by its label chain. */
    var nodes: Nodes

    ghost predicate Valid()
      reads this
    {
      WellFormed(nodes)
    }

    constructor ()
      ensures Valid()
      ensures name == "URL Hierarchy" && nodes == map[]
    {
      name := "URL Hierarchy";
      nodes := map[];
    }

    /** Walks `path` from the root, creating each missing node with count 0
        and no URLs, adds one to the count of every node visited, and
        appends `url` to the last one. The source would fail on an empty
        path (the root has no URL list), and its one caller never passes one. */
    method Add(path: Path, url: string)
      requires Valid()
      requires path != []
      modifies this
      ensures Valid()
      ensures Inserted(old(nodes), nodes, path, url)
    {
      ghost var start := nodes;
      var current: Path := [];
      for i := 0 to |path|
        invariant current == path[..i]
        invariant Walked(start, nodes, current)
      {
        var component := path[i];
        var child := current + [component];
        ghost var prev := nodes;
        if child !in nodes {
          nodes := nodes[child := Entry(0, [])];
        }
        ghost var e := if child in prev then prev[child] else Entry(0, []);
        assert nodes == prev[child := e];
        nodes := nodes[child := nodes[child].(count := nodes[child].count + 1)];
        WalkStep(start, prev, current, component, nodes);
        TakeOneMore(path, i);
        current := child;
      }
      assert current == path;
      ghost var reached := nodes;
      nodes := nodes[current := nodes[current].(urls := nodes[current].urls + [url])];
      WalkDone(start, reached, path, url, nodes);
    }
  }

  // The fold over the rows, stated directly: what the tree holds after
  // the rows of a sequence have been inserted in order.

  /** How a row's path relates to a node: it ends there, it visits it
      (ending there or deeper), or it goes on below it. */
  datatype Relation = EndsAt(node: Path) | PassesThrough(node: Path) | GoesBelow(node: Path)

  predicate Holds(rel: Relation, path: Path)
  {
    match rel
    case EndsAt(q) => path == q
    case PassesThrough(q) => q != [] && q <= path
    case GoesBelow(q) => q < path
  }

  /** URLs, in row order, of the rows whose path stands in `rel`. */
  ghost function UrlsWhere(rows: seq<Row>, rel: Relation): seq<string>
  {
    if rows == [] then []
    else UrlsWhere(rows[..|rows| - 1], rel) + (if Holds(rel, PathOf(rows[|rows| - 1])) then [rows[|rows| - 1].url] else [])
  }

  /** Number of rows whose path visits the node `q`. */
  ghost function Through(rows: seq<Row>, q: Path): nat
  {
    |UrlsWhere(rows, PassesThrough(q))|
  }

  /** URLs, in row order, of the rows whose path is empty. */
  ghost function Problematic(rows: seq<Row>): seq<string>
  {
    UrlsWhere(rows, EndsAt([]))
  }

  /** Every node some row visits. */
  ghost function Visited(rows: seq<Row>): set<Path>
  {
    if rows == [] then {} else Visited(rows[..|rows| - 1]) + Prefixes(PathOf(rows[|rows| - 1]))
  }

  /** The tree the rows build, node by node. */
  ghost function Folded(rows: seq<Row>): Nodes
  {
    map q | q in Visited(rows) :: Entry(Through(rows, q), UrlsWhere(rows, EndsAt(q)))
  }

  lemma SplitLast(rows: seq<Row>, r: Row)
    ensures (rows + [r])[..|rows|] == rows && (rows + [r])[|rows|] == r
  {
  }

  lemma {:induction false} UnvisitedIsEmpty(rows: seq<Row>, q: Path)
    requires q != [] && q !in Visited(rows)
    ensures Through(rows, q) == 0 && UrlsWhere(rows, EndsAt(q)) == []
    decreases |rows|
  {
    if rows != [] {
      var last := PathOf(rows[|rows| - 1]);
      UnvisitedIsEmpty(rows[..|rows| - 1], q);
      PrefixesMeaning(last, q);
      assert q !in Prefixes(last);
    }
  }

  lemma UrlsWhereSnoc(rows: seq<Row>, r: Row, rel: Relation)
    ensures UrlsWhere(rows + [r], rel) == UrlsWhere(rows, rel) + (if Holds(rel, PathOf(r)) then [r.url] else [])
  {
    SplitLast(rows, r);
  }

  lemma VisitedSnoc(rows: seq<Row>, r: Row)
    ensures Visited(rows + [r]) == Visited(rows) + Prefixes(PathOf(r))
  {
    SplitLast(rows, r);
  }

  /** One node of the tree after one more row: what the row adds to it. */
  lemma FoldStepAt(rows: seq<Row>, r: Row, q: Path)
    requires q in Folded(rows + [r])
    ensures Folded(rows + [r])[q].count == CountOf(Folded(rows), q) + (if q <= PathOf(r) then 1 else 0)
    ensures Folded(rows + [r])[q].urls == UrlsOf(Folded(rows), q) + (if q == PathOf(r) then [r.url] else [])
  {
    assert q != [] by { PrefixesNonEmpty(rows + [r], q); }
    UrlsWhereSnoc(rows, r, PassesThrough(q));
    UrlsWhereSnoc(rows, r, EndsAt(q));
    if q !in Folded(rows) {
      UnvisitedIsEmpty(rows, q);
    }
  }

  /** Appending a row with a path changes the tree exactly as
      `CategoryTree.Add` does. */
  lemma FoldStep(rows: seq<Row>, r: Row)
    requires PathOf(r) != []
    ensures Inserted(Folded(rows), Folded(rows + [r]), PathOf(r), r.url)
  {
    VisitedSnoc(rows, r);
    forall q | q in Folded(rows + [r]) {
      FoldStepAt(rows, r, q);
    }
  }

  /** Appending a row without a path leaves the tree as it was and adds
      the row's URL to the problematic ones. */
  lemma FoldStepProblematic(rows: seq<Row>, r: Row)
    ensures PathOf(r) == [] ==> Folded(rows + [r]) == Folded(rows)
    ensures Problematic(rows + [r]) == Problematic(rows) + (if PathOf(r) == [] then [r.url] else [])
  {
    UrlsWhereSnoc(rows, r, EndsAt([]));
    if PathOf(r) == [] {
      VisitedSnoc(rows, r);
      forall q | q in Folded(rows + [r]) ensures Folded(rows + [r])[q] == Folded(rows)[q] {
        FoldStepAt(rows, r, q);
      }
    }
  }

  lemma {:induction false} PrefixesNonEmpty(rows: seq<Row>, q: Path)
    requires q in Visited(rows)
    ensures q != []
    decreases |rows|
  {
    var last := PathOf(rows[|rows| - 1]);
    if q in Prefixes(last) {
      PrefixesMeaning(last, q);
    } else {
      PrefixesNonEmpty(rows[..|rows| - 1], q);
    }
  }

  /** What row `i` does to the tree and the problematic URLs built from
      the rows before it. */
  lemma RowStep(rows: seq<Row>, i: nat)
    requires i < |rows|
    ensures var r, before, after := rows[i], rows[..i], rows[..i + 1];
      && (PathOf(r) == [] ==> Folded(after) == Folded(before) && Problematic(after) == Problematic(before) + [r.url])
      && (PathOf(r) != [] ==> Inserted(Folded(before), Folded(after), PathOf(r), r.url)
                              && Problematic(after) == Problematic(before))
  {
    assert rows[..i + 1] == rows[..i] + [rows[i]];
    FoldStepProblematic(rows[..i], rows[i]);
    if PathOf(rows[i]) != [] {
      FoldStep(rows[..i], rows[i]);
    }
  }

  /** The source's `process_data`: folds the rows into a fresh tree, and
      returns (where the source warns about them) the URLs of the rows
      with no label, in row order. */
  method ProcessData(rows: seq<Row>) returns (tree: CategoryTree, problematic: seq<string>)
    ensures fresh(tree) && tree.Valid() && tree.name == "URL Hierarchy"
    ensures tree.nodes == Folded(rows)
    ensures problematic == Problematic(rows)
  {
    tree := new CategoryTree();
    problematic := [];
    for i := 0 to |rows|
      invariant tree.Valid()
      invariant tree.nodes == Folded(rows[..i])
      invariant problematic == Problematic(rows[..i])
    {
      var row := rows[i];
      var path := LabelPath(row.levels);
      RowStep(rows, i);
      if path == [] {
        problematic := problematic + [row.url];
        continue;
      }
      ghost var before := tree.nodes;
      tree.Add(path, row.url);
      InsertedUnique(before, tree.nodes, Folded(rows[..i + 1]), path, row.url);
    }
    assert rows[..|rows|] == rows;
  }
}
