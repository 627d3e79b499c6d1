/**
 * The tree flattener (the source's `create_markmap_data`): turns the
 * category tree into the nested `{name, children}` forest the mind-map
 * renderer draws. Children are listed in ascending order of their label,
 * each named "<label> (<count>)"; a node with URLs of its own gets one more
 * child, "URLs", after the others, holding one leaf per URL in ascending
 * order. URL leaves carry a name only.
 */
module Markmap {
  import opened Text
  import opened TreeBuilder

  /** A node of the renderer's input: a category or group with children,
      or a URL leaf, which has no children entry at all. */
  datatype OutNode = Branch(name: string, children: seq<OutNode>) | Leaf(name: string)

  /** The name of the synthetic group that holds a node's URLs. */
  const UrlsGroupName: string := "URLs"

  /** "<label> (<count>)". */
  function NodeName(l: string, count: nat): string
  {
    l + " (" + Decimal(count) + ")"
  }

  /** A category's display name is its raw label, " (", the decimal
      digits of its count and ")"; so it is never the "URLs" group's name. */
  lemma NodeNameFormat(l: string, count: nat)
    ensures var name := NodeName(l, count);
      && |name| >= |l| + 3
      && name[..|l|] == l
      && name[|l|..|l| + 2] == " ("
      && name[|l| + 2..|name| - 1] == Decimal(count)
      && name[|name| - 1] == ')'
      && name != UrlsGroupName
  {
    var d := Decimal(count);
    var name := NodeName(l, count);
    assert name[|l| + 2..|name| - 1] == d;
    assert name[|name| - 1] != UrlsGroupName[|UrlsGroupName| - 1];
  }

  function Names(s: seq<OutNode>): (names: seq<string>)
    ensures |names| == |s| && forall k :: 0 <= k < |s| ==> names[k] == s[k].name
  {
    if s == [] then [] else [s[0].name] + Names(s[1..])
  }

  /** One leaf per URL, in the given order. */
  function Leaves(urls: seq<string>): (leaves: seq<OutNode>)
    ensures |leaves| == |urls|
    ensures forall k :: 0 <= k < |urls| ==> leaves[k] == Leaf(urls[k])
  {
    if urls == [] then [] else [Leaf(urls[0])] + Leaves(urls[1..])
  }

  /** The "URLs" group of a node whose URL list is `urls`, if any. */
  function UrlGroup(urls: seq<string>): seq<OutNode>
  {
    if urls == [] then [] else [Branch(UrlsGroupName, Leaves(Sort(urls)))]
  }

  /** The group exists iff there are URLs; it is one node named "URLs"
      whose children are URL leaves in ascending order, exactly the URLs
      given, counted with multiplicity. */
  lemma UrlGroupShape(urls: seq<string>)
    ensures var group := UrlGroup(urls);
      && (group == [] <==> urls == [])
      && (urls != [] ==>
        && |group| == 1 && group[0].Branch? && group[0].name == UrlsGroupName
        && (forall k :: 0 <= k < |group[0].children| ==> group[0].children[k].Leaf?)
        && Ascending(Names(group[0].children))
        && multiset(Names(group[0].children)) == multiset(urls))
  {
    if urls != [] {
      assert Names(Leaves(Sort(urls))) == Sort(urls);
    }
  }

  /** The nodes strictly below `p`; a measure that shrinks towards the leaves. */
  ghost function Below(nodes: Nodes, p: Path): set<Path>
  {
    set q | q in nodes && p < q
  }

  lemma BelowShrinks(nodes: Nodes, p: Path, l: string)
    requires p + [l] in nodes
    ensures |Below(nodes, p + [l])| < |Below(nodes, p)|
  {
    var c := p + [l];
    assert c[..|p|] == p;
    forall q | q in Below(nodes, c) ensures q in Below(nodes, p) - {c} {
      assert q[..|c|] == c;
      assert q[..|p|] == c[..|p|];
    }
    assert c in Below(nodes, p);
    SubsetCard(Below(nodes, c), Below(nodes, p) - {c});
  }

  lemma SubsetCard<T>(a: set<T>, b: set<T>)
    requires a <= b
    ensures |a| <= |b|
  {
    assert b == a + (b - a);
    assert a * (b - a) == {};
  }

  /** `create_markmap_data`: the output nodes for the children of `p`. */
  ghost function Flatten(nodes: Nodes, p: Path): (out: seq<OutNode>)
    ensures |out| == |ChildLabels(nodes, p)|
    decreases |Below(nodes, p)|, 1, 0
  {
    ChildLabelsMeaning(nodes, p);
    FlattenChildren(nodes, p, SortSet(ChildLabels(nodes, p)))
  }

  /** The output nodes for the children of `p` named by `labels`, in that
      order. */
  ghost function FlattenChildren(nodes: Nodes, p: Path, labels: seq<string>): (out: seq<OutNode>)
    requires forall l :: l in labels ==> p + [l] in nodes
    ensures |out| == |labels|
    decreases |Below(nodes, p)|, 0, |labels|
  {
    if labels == [] then []
    else
      BelowShrinks(nodes, p, labels[0]);
      [CategoryNode(nodes, p + [labels[0]], labels[0])] + FlattenChildren(nodes, p, labels[1..])
  }

  /** The output node for the node at `q`, whose own label is `l`. */
  ghost function CategoryNode(nodes: Nodes, q: Path, l: string): OutNode
    requires q in nodes
    decreases |Below(nodes, q)|, 2, 0
  {
    Branch(NodeName(l, nodes[q].count), Flatten(nodes, q) + UrlGroup(nodes[q].urls))
  }

  lemma {:induction false} FlattenChildrenAt(nodes: Nodes, p: Path, labels: seq<string>, i: nat)
    requires forall l :: l in labels ==> p + [l] in nodes
    requires i < |labels|
    ensures FlattenChildren(nodes, p, labels)[i] == CategoryNode(nodes, p + [labels[i]], labels[i])
    decreases i
  {
    var rest := labels[1..];
    assert forall l :: l in rest ==> l in labels;
    var tail := FlattenChildren(nodes, p, rest);
    assert FlattenChildren(nodes, p, labels) == [CategoryNode(nodes, p + [labels[0]], labels[0])] + tail;
    if i > 0 {
      var l := rest[i - 1];
      assert l == labels[i];
      FlattenChildrenAt(nodes, p, rest, i - 1);
      assert tail[i - 1] == CategoryNode(nodes, p + [l], l);
    }
  }

  /** The layout of the flattened children of `p`: one output node per
      child, in strictly ascending order of the raw label (not of the
      display name), each the child's own output node. */
  lemma FlattenLayout(nodes: Nodes, p: Path)
    ensures var labels, out := SortSet(ChildLabels(nodes, p)), Flatten(nodes, p);
      && StrictlyAscending(labels)
      && (forall l :: l in labels <==> p + [l] in nodes)
      && |out| == |labels|
      && (forall i :: 0 <= i < |out| ==> out[i] == CategoryNode(nodes, p + [labels[i]], labels[i]))
  {
    var labels := SortSet(ChildLabels(nodes, p));
    ChildLabelsMeaning(nodes, p);
    forall i | 0 <= i < |labels|
      ensures Flatten(nodes, p)[i] == CategoryNode(nodes, p + [labels[i]], labels[i])
    {
      FlattenChildrenAt(nodes, p, labels, i);
    }
  }

  /** No output node of a category is named like the "URLs" group, even
      when its label is "URLs": its name ends in the count suffix. */
  lemma NoCategoryNamedUrls(nodes: Nodes, p: Path)
    ensures forall j :: 0 <= j < |Flatten(nodes, p)| ==> Flatten(nodes, p)[j].name != UrlsGroupName
  {
    var labels := SortSet(ChildLabels(nodes, p));
    FlattenLayout(nodes, p);
    forall j | 0 <= j < |Flatten(nodes, p)| ensures Flatten(nodes, p)[j].name != UrlsGroupName {
      var q := p + [labels[j]];
      assert Flatten(nodes, p)[j] == CategoryNode(nodes, q, labels[j]);
      NodeNameFormat(labels[j], nodes[q].count);
    }
  }

  /** A category node is named after its label and count, lists its
      children's output nodes first and then, exactly when the node has
      URLs of its own, the "URLs" group as its last child. */
  lemma CategoryNodeShape(nodes: Nodes, q: Path, l: string)
    requires q in nodes
    ensures var n, e := CategoryNode(nodes, q, l), nodes[q];
      && n.Branch? && n.name == NodeName(l, e.count)
      && n.children[..|ChildLabels(nodes, q)|] == Flatten(nodes, q)
      && ((exists j :: 0 <= j < |n.children| && n.children[j].name == UrlsGroupName) <==> e.urls != [])
      && |n.children| == |ChildLabels(nodes, q)| + (if e.urls == [] then 0 else 1)
      && (e.urls != [] ==> n.children[|n.children| - 1] == UrlGroup(e.urls)[0])
  {
    var n, e := CategoryNode(nodes, q, l), nodes[q];
    var kids := Flatten(nodes, q);
    var group := UrlGroup(e.urls);
    assert n.children == kids + group;
    NoCategoryNamedUrls(nodes, q);
    UrlGroupShape(e.urls);
    if e.urls != [] {
      assert n.children[|kids|] == group[0];
    } else {
      assert n.children == kids;
    }
  }
}
