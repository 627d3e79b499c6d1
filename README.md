# URL taxonomy visualizer — verified model of the tree builder and flattener

The URL taxonomy visualizer reads a spreadsheet. Each row holds a URL and up to
eight category labels in columns `L0`..`L7`. The program builds a category tree
in which every node counts the rows that pass through it and lists the URLs of
the rows that end at it. It then flattens the tree into the nested
`{name, children}` forest that a mind-map renderer draws. This project models
that core in Dafny and proves what it promises:

- **Path derivation** (`TreeBuilder.LabelPath`). A row's path is its present
  labels, in column order. Missing cells are skipped: they do not end the path.
- **Insertion** (`TreeBuilder.CategoryTree.Add`). This is a loop that walks a
  `current` position from the root. It creates each missing child with count 0
  and no URLs, and adds one to the count of every node it visits. It appends
  the URL to the last node.
- **The row loop** (`TreeBuilder.ProcessData`). Rows without any label are
  collected as problematic URLs, in input order. Every other row is inserted.
  The loop is proved against a declarative description of the finished tree,
  `TreeBuilder.Folded`. In that description, a node exists iff some row's path
  visits it. Its count is the number of rows through it, and its URLs are those
  of the rows ending there, in row order.
- **Flattening** (`Markmap.Flatten`). Children are listed in ascending order of
  their raw label, each named `"<label> (<count>)"`. A node with URLs of its own
  gets one more child, `"URLs"`, as its last child. That child holds one leaf
  per URL, in ascending order.

### How the tree is represented

The source keeps the tree as nested dictionaries, each owning its children.
Because no node is reachable by two paths, a node is identified by its label
chain from the root. The model therefore stores the tree as one map from that
chain to the node's `count` and `urls`. A node's children are the stored chains
one label longer. The synthetic root is the empty chain. It is never stored,
because the source's root has neither a count nor a URL list.

String order is Python's order on `str`: code points compared left to right,
with a proper prefix sorting first (`Text.LexLe`). Counts are rendered in base
10 (`Text.Decimal`).

Three points of the program's behaviour are easy to misread:
- A node's URLs are a list, so duplicates are kept, and the lemmas count URLs
  with multiplicity.
- Siblings sort by raw label, not by the displayed `label (count)` name
  (`Markmap.FlattenLayout`).
- A missing level is skipped and does not end the path
  (`TreeBuilder.MissingLevelSkipped`).

## Model

| member | source | states |
|---|---|---|
| Text.LexLe | main.py:49 | Python's `str` order used by `sorted`: code points left to right, a proper prefix first; total, antisymmetric and transitive by `Text.LexLeTotal`, `Text.LexLeAntisymmetric`, `Text.LexLeTransitive` |
| Text.LexLeTotal | main.py:49 | any two labels are comparable under Python's string order, so `sorted` has an answer |
| Text.LexLeAntisymmetric | main.py:49 | two strings each at most the other are equal |
| Text.LexLeTransitive | main.py:57 | the string order is transitive |
| Text.Sort | main.py:57 | `sorted` on a URL list gives an ascending rearrangement with the same elements and multiplicities |
| Text.SortSet | main.py:49 | the children's labels, listed once each, strictly ascending, exactly the set given |
| Text.AscendingUnique | main.py:57 | two ascending lists with the same elements and multiplicities are equal, so sorting has exactly one answer |
| Text.SortPermuted | main.py:57 | sorting depends only on the multiset of URLs, not on their order |
| Text.Decimal | main.py:51 | the rendered count is a non-empty string of digits, with no leading zero, that denotes the count |
| TreeBuilder.LabelPath | main.py:67 | the path is no longer than the cells; it is empty iff every cell is missing; a label is in it iff some cell holds it |
| TreeBuilder.PathOf | main.py:67 | a row's path has at most 8 labels |
| TreeBuilder.LabelPathConcat | main.py:67 | the path is formed column by column: the path of joined cells is the joined paths |
| TreeBuilder.MissingLevelSkipped | main.py:67 | `[A, missing, B, missing...]` gives the path `[A, B]`: a gap does not end the path |
| TreeBuilder.PrefixesMeaning | main.py:40-44 | the nodes an insertion visits are exactly the non-empty prefixes of the path |
| TreeBuilder.Inserted | main.py:38-45 | the effect of one insertion: the path's nodes exist, each counts one more row, only the deepest gains the URL, every other node is unchanged; its consequences are the `Inserted…` lemmas below |
| TreeBuilder.InsertedCreatesWithOne | main.py:41-44 | a node created by an insertion ends with count 1, holding the URL iff it is the deepest node |
| TreeBuilder.InsertedKeepsExisting | main.py:41-44 | an existing node is never replaced: its URLs are kept and its count grows by 1 iff it lies on the path, and a node off the path is unchanged |
| TreeBuilder.InsertedUrlPlacement | main.py:45 | only the deepest node of the path gains a URL, and it gains exactly this URL at the end; every count grows by at most 1 |
| TreeBuilder.InsertedWellFormed | main.py:38-45 | insertion keeps the map a tree: every stored node's parent is stored |
| TreeBuilder.InsertedUnique | main.py:38-45 | an insertion of a path and URL into a given tree has exactly one outcome |
| TreeBuilder.ChildLabelsMeaning | main.py:41-42 | `l` is a child label of `p` iff the chain `p + [l]` is a stored node |
| TreeBuilder.InsertedKeepsOffPathChildren | main.py:40-43 | a node off the path gets no new child |
| TreeBuilder.WalkStep | main.py:41-44 | one step of the walk creates the child if it is absent and counts it, keeping everything already walked |
| TreeBuilder.WalkDone | main.py:45 | appending the URL at the node reached completes exactly one insertion |
| TreeBuilder.CategoryTree.constructor | main.py:63 | a new tree is the root named "URL Hierarchy" with no nodes |
| TreeBuilder.CategoryTree.Add | main.py:38-45 | the in-place walk leaves the nodes as `Inserted` describes: the path's missing nodes created, every count on the path plus one, the URL appended at the deepest node, and every other node unchanged |
| TreeBuilder.Folded | main.py:62-71 | the tree the rows build: a node for each chain some row visits, counting the rows through it and holding, in row order, the URLs of the rows ending at it; `ProcessData` is proved to build it |
| TreeBuilder.UnvisitedIsEmpty | main.py:65-71 | a chain no row visits has no rows through it and no URLs |
| TreeBuilder.FoldStep | main.py:71 | one more row with a label path changes the declarative tree exactly as an insertion of that path does |
| TreeBuilder.FoldStepProblematic | main.py:68-70 | a row with no label leaves the tree unchanged and appends its URL to the problematic ones; any other row leaves them unchanged |
| TreeBuilder.RowStep | main.py:65-71 | row `i` leaves the tree alone and appends its URL to the problematic ones when it has no label, and otherwise inserts its path and URL and leaves the problematic ones alone |
| TreeBuilder.ProcessData | main.py:62-71 | the row loop builds exactly the declarative tree of its rows and returns the URLs of the unlabelled rows in input order |
| Markmap.NodeName | main.py:51 | the f-string `"<label> (<count>)"`; its format is stated by `Markmap.NodeNameFormat` |
| Markmap.NodeNameFormat | main.py:51 | the name is the label, then " (", then exactly `Decimal(count)` (the shortest decimal spelling of the count), then ")"; it can never be "URLs" |
| Markmap.Leaves | main.py:57 | one leaf per URL, in the given order |
| Markmap.UrlGroup | main.py:54-58 | the "URLs" group of a node; its shape is stated by `Markmap.UrlGroupShape` and its leaves by `Accounting.UrlGroupLeaves` |
| Markmap.UrlGroupShape | main.py:54-58 | the group is present iff the node has URLs; it is a single node named "URLs" whose children are leaves, ascending, with exactly the node's URLs with multiplicity |
| Markmap.Flatten | main.py:47-60 | there is one output entry per child of the node |
| Markmap.FlattenChildren | main.py:49-59 | one output entry per label given |
| Markmap.FlattenChildrenAt | main.py:49-59 | entry `i` is the output node of the child named by label `i`, so the labels' order is the output's order |
| Markmap.FlattenLayout | main.py:49-52 | the siblings are in strictly ascending order of their raw label; labels are exactly the children; entry `i` is the output node of child `i` |
| Markmap.NoCategoryNamedUrls | main.py:51 | no category's output node is named "URLs", even for a category labelled "URLs" |
| Markmap.CategoryNode | main.py:50-58 | the output node of one category; its name and children are stated by `Markmap.CategoryNodeShape` |
| Markmap.CategoryNodeShape | main.py:50-58 | a category node is named after its label and count, and lists its children's nodes first; a "URLs" child exists iff the node has URLs, and then it is the last child |
| Accounting.UrlGroupLeaves | main.py:54-58 | the "URLs" group's leaves are exactly the node's URLs, with multiplicity |
| Accounting.PassesThroughSplit | main.py:44-45 | the rows through a node are those ending there plus those going deeper |
| Accounting.RootSplit | main.py:67-71 | every row either has a label path or is problematic, never both |
| Accounting.Partition | main.py:40-43 | grouping the rows below a node by their next label loses no row and counts none twice |
| Accounting.FlattenLeaves | main.py:47-60 | the URL leaves under the output for a node's children are exactly the URLs of the rows whose path goes below that node |
| Accounting.CategoryNodeLeaves | main.py:50-58 | the URL leaves under a category's output node are exactly the URLs of the rows through that category |
| Accounting.UrlAccounting | main.py:65-71 | the URL leaves of the whole output plus the problematic URLs are exactly the input URLs, with multiplicity |
| Accounting.EachUrlOnce | main.py:67-71 | with unique URLs, a row without a label is problematic and no leaf; any other row's URL is exactly one leaf and not problematic |
| Accounting.CountSumsChildren | main.py:40-45 | a node's count is the number of its own URLs plus the counts of its children |
| Accounting.RootCountsCoverRows | main.py:65-71 | the top-level counts add up to the number of rows with a label path, the rest being problematic |
| Accounting.CountCoversUrls | main.py:44-45 | a node's count is at least the number of its URLs |
| Determinism.UrlsWherePermuted | main.py:65-71 | which URLs a row filter selects depends only on the multiset of rows |
| Determinism.FoldedPermuted | main.py:65-71 | reordering the rows yields the same nodes and counts, and each node's URLs up to order |
| Determinism.FlattenSame | main.py:47-60 | the output depends on the tree only up to the order of each node's URLs |
| Determinism.RowOrderIrrelevant | main.py:47-71 | any reordering of the rows yields the same output forest and the same problematic URLs up to order |

## Left out

- The Streamlit user interface is not modelled, because it is UI and I/O. This covers the page setup, title, styling and file uploader, the warning that lists the problematic URLs (main.py:73-75), and the URL picker with its open button.
- `load_data` (main.py:27-36) is not modelled, because it is spreadsheet parsing and caching in a foreign library. Its one effect on the core, that `drop_duplicates` makes URLs unique, appears as the `UniqueUrls` precondition of `Accounting.EachUrlOnce`.
- `download_template` (main.py:11-25) is not modelled, because it writes a spreadsheet and builds an HTML link.
- A table that lacks a column among `L0`..`L7` is not modelled. The source raises a `KeyError` when it reads such a column (the downloadable template has only `L0`..`L2`). In the model every row has exactly eight cells.
- JSON serialisation of the output and the renderer call are not modelled. The output is the `Markmap.OutNode` datatype. A URL leaf is its own constructor with no children, just as the source's leaf dictionaries have no `children` key.
- `str(...)` coercion of non-string cells and pandas' missing-value rules are not modelled. Labels are strings already, and a missing cell is `None`. URLs are strings too: the source takes `row['Full URL']` uncoerced (main.py:66), so an empty URL cell arrives as NaN, and `sorted` on a URL list mixing NaN and strings raises `TypeError` (main.py:57); the model cannot express that case.
- `TreeBuilder.CategoryTree.Add` requires a non-empty path. The source would fail on an empty one, because the root has no URL list. Its only caller never passes an empty path.
- `TreeBuilder.ProcessData` returns the problematic URLs. The source hands them to the warning display instead (main.py:73-75) and returns only the tree.
- `Markmap.Flatten` is a ghost function. It enumerates a node's children through a choice over the set of child labels, which is then sorted. Because the result is sorted, the choice does not affect it, but it cannot be compiled.
- The nested dictionaries and the `current` reference into them are not modelled. The tree is a map from label chains to node data, so aliasing of sub-dictionaries does not arise: the source never shares a node.
- The source's root also has a `name`, "URL Hierarchy". The model keeps it in `CategoryTree.name`, but the flattener never reads it, just as in the source.
