/**
 * The output does not depend on the order of the rows: the tree's nodes
 * and counts depend only on which rows there are, each node's URL list
 * only up to order, and the flattener sorts both the children and the
 * URLs, so any reordering of the rows yields the same forest.
 */
module Determinism {
  import opened Text
  import opened TreeBuilder
  import opened Markmap

  lemma {:induction false} UrlsWhereConcat(a: seq<Row>, b: seq<Row>, rel: Relation)
    ensures UrlsWhere(a + b, rel) == UrlsWhere(a, rel) + UrlsWhere(b, rel)
    decreases |b|
  {
    if b == [] {
      assert a + b == a;
    } else {
      var init := b[..|b| - 1];
      assert (a + b)[..|a + b| - 1] == a + init;
      UrlsWhereConcat(a, init, rel);
    }
  }

  lemma {:induction false} VisitedConcat(a: seq<Row>, b: seq<Row>)
    ensures Visited(a + b) == Visited(a) + Visited(b)
    decreases |b|
  {
    if b == [] {
      assert a + b == a;
    } else {
      var init := b[..|b| - 1];
      assert (a + b)[..|a + b| - 1] == a + init;
      VisitedConcat(a, init);
    }
  }

  lemma SplitAt<T>(s: seq<T>, k: nat)
    requires k < |s|
    ensures s == s[..k] + [s[k]] + s[k + 1..]
    ensures multiset(s) == multiset(s[..k] + s[k + 1..]) + multiset{s[k]}
  {
    assert s == s[..k] + [s[k]] + s[k + 1..];
  }

  lemma CancelOne<T>(a: multiset<T>, b: multiset<T>, x: T)
    requires a + multiset{x} == b + multiset{x}
    ensures a == b
  {
    assert a == (a + multiset{x}) - multiset{x};
    assert b == (b + multiset{x}) - multiset{x};
  }

  /** Where the last row of `rows` sits in a reordering `other`, and what
      remains of `other` around it. */
  lemma PickLast(rows: seq<Row>, other: seq<Row>) returns (before: seq<Row>, after: seq<Row>)
    requires rows != [] && multiset(rows) == multiset(other)
    ensures other == before + [rows[|rows| - 1]] + after
    ensures multiset(before + after) == multiset(rows[..|rows| - 1])
  {
    var r := rows[|rows| - 1];
    SplitAt(rows, |rows| - 1);
    assert r in multiset(other);
    var k :| 0 <= k < |other| && other[k] == r;
    SplitAt(other, k);
    before, after := other[..k], other[k + 1..];
    CancelOne(multiset(before + after), multiset(rows[..|rows| - 1]), r);
  }

  /** Taking one row out of the middle removes just its own contribution. */
  lemma UrlsWhereAround(before: seq<Row>, r: Row, after: seq<Row>, rel: Relation)
    ensures multiset(UrlsWhere(before + [r] + after, rel))
         == multiset(UrlsWhere(before + after, rel)) + multiset(UrlsWhere([r], rel))
  {
    UrlsWhereConcat(before, after, rel);
    UrlsWhereConcat(before + [r], after, rel);
    UrlsWhereConcat(before, [r], rel);
  }

  lemma UrlsWhereLast(rows: seq<Row>, rel: Relation)
    requires rows != []
    ensures multiset(UrlsWhere(rows, rel))
         == multiset(UrlsWhere(rows[..|rows| - 1], rel)) + multiset(UrlsWhere([rows[|rows| - 1]], rel))
  {
    assert rows == rows[..|rows| - 1] + [rows[|rows| - 1]];
    UrlsWhereConcat(rows[..|rows| - 1], [rows[|rows| - 1]], rel);
  }

  lemma {:induction false} UrlsWherePermuted(rows: seq<Row>, other: seq<Row>, rel: Relation)
    requires multiset(rows) == multiset(other)
    ensures multiset(UrlsWhere(rows, rel)) == multiset(UrlsWhere(other, rel))
    decreases |rows|
  {
    if rows == [] {
      assert |other| == |multiset(other)| == 0;
    } else {
      var init, r := rows[..|rows| - 1], rows[|rows| - 1];
      var before, after := PickLast(rows, other);
      UrlsWherePermuted(init, before + after, rel);
      UrlsWhereAround(before, r, after, rel);
      UrlsWhereLast(rows, rel);
    }
  }

  lemma VisitedAround(before: seq<Row>, r: Row, after: seq<Row>)
    ensures Visited(before + [r] + after) == Visited(before + after) + Prefixes(PathOf(r))
  {
    VisitedConcat(before, after);
    VisitedConcat(before + [r], after);
    VisitedSnoc(before, r);
  }

  lemma {:induction false} VisitedPermuted(rows: seq<Row>, other: seq<Row>)
    requires multiset(rows) == multiset(other)
    ensures Visited(rows) == Visited(other)
    decreases |rows|
  {
    if rows == [] {
      assert |other| == |multiset(other)| == 0;
    } else {
      var init, r := rows[..|rows| - 1], rows[|rows| - 1];
      var before, after := PickLast(rows, other);
      VisitedPermuted(init, before + after);
      VisitedAround(before, r, after);
    }
  }

  /** Two trees with the same nodes, the same counts and the same URLs at
      each node, possibly listed in another order. */
  ghost predicate SameContent(n1: Nodes, n2: Nodes)
  {
    && n1.Keys == n2.Keys
    && forall q :: q in n1 ==> n1[q].count == n2[q].count && multiset(n1[q].urls) == multiset(n2[q].urls)
  }

  /** Reordering the rows changes no node and no count, and keeps each
      node's URLs up to order. */
  lemma FoldedPermuted(rows: seq<Row>, other: seq<Row>)
    requires multiset(rows) == multiset(other)
    ensures SameContent(Folded(rows), Folded(other))
  {
    VisitedPermuted(rows, other);
    forall q | q in Folded(rows)
      ensures Folded(rows)[q].count == Folded(other)[q].count
      ensures multiset(Folded(rows)[q].urls) == multiset(Folded(other)[q].urls)
    {
      UrlsWherePermuted(rows, other, PassesThrough(q));
      UrlsWherePermuted(rows, other, EndsAt(q));
      assert |multiset(UrlsWhere(rows, PassesThrough(q)))| == Through(rows, q);
      assert |multiset(UrlsWhere(other, PassesThrough(q)))| == Through(other, q);
    }
  }

  lemma SameChildren(n1: Nodes, n2: Nodes, p: Path)
    requires n1.Keys == n2.Keys
    ensures ChildLabels(n1, p) == ChildLabels(n2, p)
  {
    ChildLabelsMeaning(n1, p);
    ChildLabelsMeaning(n2, p);
  }

  /** The flattener reads a tree only up to the order of each node's URLs. */
  lemma FlattenSame(n1: Nodes, n2: Nodes, p: Path)
    requires SameContent(n1, n2)
    ensures Flatten(n1, p) == Flatten(n2, p)
    decreases |Below(n1, p)|, 1, 0
  {
    SameChildren(n1, n2, p);
    ChildLabelsMeaning(n1, p);
    FlattenChildrenSame(n1, n2, p, SortSet(ChildLabels(n1, p)));
  }

  lemma FlattenChildrenSame(n1: Nodes, n2: Nodes, p: Path, labels: seq<string>)
    requires SameContent(n1, n2)
    requires forall l :: l in labels ==> p + [l] in n1
    ensures FlattenChildren(n1, p, labels) == FlattenChildren(n2, p, labels)
    decreases |Below(n1, p)|, 0, |labels|
  {
    if labels != [] {
      BelowShrinks(n1, p, labels[0]);
      CategoryNodeSame(n1, n2, p + [labels[0]], labels[0]);
      FlattenChildrenSame(n1, n2, p, labels[1..]);
    }
  }

  lemma CategoryNodeSame(n1: Nodes, n2: Nodes, q: Path, l: string)
    requires SameContent(n1, n2) && q in n1
    ensures CategoryNode(n1, q, l) == CategoryNode(n2, q, l)
    decreases |Below(n1, q)|, 2, 0
  {
    FlattenSame(n1, n2, q);
    SortPermuted(n1[q].urls, n2[q].urls);
  }

  /** Any reordering of the same rows yields the same forest and the same
      problematic URLs, up to their order. */
  lemma RowOrderIrrelevant(rows: seq<Row>, other: seq<Row>)
    requires multiset(rows) == multiset(other)
    ensures Flatten(Folded(rows), []) == Flatten(Folded(other), [])
    ensures multiset(Problematic(rows)) == multiset(Problematic(other))
  {
    FoldedPermuted(rows, other);
    FlattenSame(Folded(rows), Folded(other), []);
    UrlsWherePermuted(rows, other, EndsAt([]));
  }
}
