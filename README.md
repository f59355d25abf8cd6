# CasualDAG_Sum graph utilities and semantic colouring, in Dafny

This project models two parts of the CasualDAG_Sum visualiser and proves what they promise.

**The graph utilities (graph_utils.py).**
- `to_pyvis_compatible` builds a new directed graph that the pyvis renderer accepts:
  - every node id becomes a string;
  - only the string-keyed node and edge attributes are kept.
- `fix_nested_keys_in_edge_attrs` runs `_fix_dict_recursively` on every edge's attribute dictionary. That function rewrites, in place and in every dict reached through dict values, each non-string dictionary key into a string.
- `dict_of_dicts_to_numpy` turns a dict of dicts of similarities into an n × n table over the sorted outer keys.

**The semantic colouring (semantic_coloring.py).**
- `get_category` sorts a metric label into one of five categories.
- `build_semantic_matrix` fills a symmetric table of random scores. The range of each score depends on whether the two labels share a category.
- `cluster_by_similarity` is a greedy single-pass first-fit clustering against cluster representatives.
- `assign_colors_to_clusters` gives each cluster a base colour, darkening it along the cluster.
- `colorize_nodes_by_similarity` chains the three.

Modules:

| module | file | models |
|---|---|---|
| `Wrappers` | wrappers.dfy | `Option`, used for the error paths (a `TypeError` or a `KeyError`) |
| `PyValues` | py_values.dfy | keys, attribute values and insertion-ordered dicts, with `str()` of keys and `d[k] = v`, `del d[k]` and `dict.update` |
| `NxGraph` | nx_graph.dfy | the part of networkx `DiGraph` the utilities use: `DiGraph()`, `add_node` and `add_edge`, which merge attributes into existing ones |
| `GraphSanitizer` | graph_sanitizer.dfy | `to_pyvis_compatible` |
| `AttrNormalizer` | attr_normalizer.dfy | `_fix_dict_recursively` and `fix_nested_keys_in_edge_attrs` |
| `StringOrder` | string_order.dfy | Python's ordering of `str` values and `sorted()` |
| `MatrixExport` | matrix_export.dfy | `dict_of_dicts_to_numpy` |
| `SemanticMatrix` | semantic_matrix.dfy | `get_category` and `build_semantic_matrix` |
| `Clustering` | clustering.dfy | `cluster_by_similarity` and what it computes on a semantic matrix |
| `Coloring` | coloring.dfy | `assign_colors_to_clusters` and `colorize_nodes_by_similarity` |

How the model represents the program:

- **Dictionaries** are sequences of `(key, value)` pairs in insertion order, as CPython keeps them. `d[k] = v` overwrites an existing key in place and appends a new one. `del d[k]` removes the key.
- **Dictionary keys** are strings, integers, `None`, or flat tuples of those.
- **Graphs** are objects whose fields the methods update in place.
- **The similarity dict of dicts** is its outer key list plus a map from `(a, b)` to `similarity[a][b]`. A missing pair is a `KeyError`, which the model returns as `None`.
- **Randomness.** The t-th call of `random.uniform(lo, hi)` returns `lo + (hi - lo) * draw(t)`, where the stream `draw` is a parameter with values in [0, 1].

What is proved:

- **Graph copy.**
  - A string node id is kept unchanged.
  - A tuple node id becomes its elements joined with `",\n"`. The code joins with `",\n"`, although the docstring of `fix_nested_keys_in_edge_attrs` shows a plain comma. The model follows the code.
  - Any other node id makes the copy fail, because `join` raises `TypeError`.
  - The copy also fails with `TypeError` when a kept node attribute is named `self` or `node_for_adding`, or a kept edge attribute is named `self`, `u_of_edge` or `v_of_edge`. The attributes are passed to `add_node` and `add_edge` as keyword arguments, and these names clash with the methods' own parameters.
  - There are no other failures: the copy succeeds exactly when none of these cases occurs.
  - The copy's node set is exactly the image of the input's nodes under this rule.
  - Every edge is carried over under the same rule at both endpoints.
  - Only string-keyed attributes survive. When no two ids convert to the same string, their values are unchanged.
- **Key normalisation.**
  - Afterwards every key of every dict reached through dict values is a string. Dicts inside lists are not visited and keep their keys, as in the code.
  - Normalisation is idempotent, and a dictionary with string keys in every dict reached through dict values is left as it is.
  - When no two keys share a text, each value is kept under its key's new text.
  - When two keys share a text, only one entry survives. One example is proved: `{"1": a, 1: b}` becomes `{"1": b}`, so there the renamed key wins. No general statement about collisions is made.
- **Table export.** The table is n × n, and cell (i, j) is `similarity[nodes[i]][nodes[j]]` for the sorted key order. Exactly when some pair is missing, `KeyError` is raised.
- **Similarity matrix.**
  - There is an entry for every ordered pair of labels.
  - The table is symmetric, with 1.0 on the diagonal.
  - A score lies in [0.8, 1.0] within a category and in [0.0, 0.6] across categories.
  - As a result, the 0.7 threshold separates the categories exactly.
- **Clustering.**
  - The clusters partition the keys and keep them in input order.
  - They obey the first-fit rule. Every member scores at least the threshold against its own representative. Every member scores below the threshold against the representative of every earlier cluster.
  - On a semantic matrix at threshold 0.7, the clusters are exactly the category groups, in order of first appearance.
- **Colours.**
  - Every clustered node gets a colour.
  - Each channel is `clamp(base - 30 * position, 0, 255)`, with the base colour chosen by cluster index mod 6.
  - The first member of a cluster gets the exact base colour.
  - Colours darken along a cluster and are black from the tenth member on.

## Model

| member | source | states |
|---|---|---|
| PyValues.Renamed | graph_utils.py:153-158 | the replacement of a key is a string key, and a string key is left as it is |
| PyValues.Store | graph_utils.py:165 | `d[k] = v` adds k to the keys, keeps keys distinct, adds only `(k, v)`, and appends when k is new |
| PyValues.Delete | graph_utils.py:164 | `del d[k]` removes exactly k from the keys and adds no entry |
| PyValues.StoreLookup | graph_utils.py:165 | after `d[k] = v`, k maps to v and every other key to what it held |
| PyValues.DeleteLookup | graph_utils.py:164 | after `del d[k]`, k is absent and every other key keeps its value |
| PyValues.Update | graph_utils.py:103 | merging attributes into a node's dict yields the union of both key sets and keeps keys distinct; the values are stated by `UpdateLookup` |
| PyValues.UpdateLookup | graph_utils.py:103 | after merging, each key of the argument holds the argument's value and every other key keeps its old value |
| PyValues.UpdateEmpty | graph_utils.py:103 | merging a dict into a new node's empty attributes gives that dict unchanged |
| PyValues.UpdateStrKeys | graph_utils.py:103 | merging string-keyed dicts keeps every key a string |
| PyValues.StringKeyed | graph_utils.py:96-100 | the entries kept are exactly the string-keyed ones; the result has only string keys; it is the input itself when all keys are strings |
| NxGraph.DiGraph.constructor | graph_utils.py:84 | a new graph is empty and well formed |
| NxGraph.DiGraph.AddNode | graph_utils.py:103 | `add_node` appends a new node or keeps the node list; the node's attributes are merged; the edges are untouched |
| NxGraph.DiGraph.AddEdge | graph_utils.py:125 | `add_edge` appends each missing endpoint (u, then v) to the node list with an empty attribute dict and leaves every existing node's dict as it was; it appends a new edge or keeps the edge list, and merges the edge's attributes |
| GraphSanitizer.PyvisId | graph_utils.py:88-92 | an id exists exactly for string and tuple nodes, and a string node keeps its id |
| GraphSanitizer.PyvisIdOfPair | graph_utils.py:92 | the tuple `("X", "Y")` becomes the two-line label `"X,\nY"` |
| GraphSanitizer.PyvisIdAgreesWithRenamed | graph_utils.py:89-92 | a node's id is the text the key normaliser gives the same key |
| GraphSanitizer.KeepStringKeys | graph_utils.py:96-100 | the new attribute dict is the string-keyed part of the old one, in its order |
| GraphSanitizer.EdgeId | graph_utils.py:108-116 | an edge has an id exactly when both endpoints do, and it is the pair of their ids |
| GraphSanitizer.KwargsFitKept | graph_utils.py:96-103 | whether a dict clashes with the keyword parameters is the same before and after keeping only its string keys |
| GraphSanitizer.SelfKwargClashes | graph_utils.py:103 | an attribute named `self` clashes with `add_node`'s parameters, and one named `label` does not |
| GraphSanitizer.CopyNodes | graph_utils.py:87-103 | succeeds exactly when every node has an id and no node's kept attributes clash with `add_node`'s parameters; the copy's nodes are exactly the ids, each with string-keyed attributes; without id collisions it mirrors the node list item by item |
| GraphSanitizer.CopyNode | graph_utils.py:88-103 | one node: fails exactly when the node has no id or its kept attributes clash with `add_node`'s parameters, otherwise the copy covers one more node |
| GraphSanitizer.CopyNext | graph_utils.py:96-103 | merging the next item's string-keyed attributes keeps the copy covered, sourced and string-keyed, and mirrored when ids do not collide |
| GraphSanitizer.CoveredConvertible | graph_utils.py:87-103 | a copy that covers every listed node, each of whose attributes fit `add_node`, means every node of the graph had an id and fitting attributes |
| GraphSanitizer.ListedEdgesFit | graph_utils.py:106-125 | when every listed edge's attributes fit `add_edge`, every edge of the graph's do |
| GraphSanitizer.CopyEdges | graph_utils.py:106-125 | succeeds exactly when no edge's kept attributes clash with `add_edge`'s parameters; then the copy's edges are exactly the edges' ids, each with string-keyed attributes, and its nodes are unchanged |
| GraphSanitizer.CopyEdge | graph_utils.py:107-125 | one edge: fails exactly when its kept attributes clash with `add_edge`'s parameters; otherwise its endpoints are already nodes of the copy, and the copy covers one more edge |
| GraphSanitizer.EdgeEnds | graph_utils.py:106-116 | every edge of a graph whose nodes all have ids has an id whose ends are nodes of the copy |
| GraphSanitizer.EdgeIdsInjective | graph_utils.py:106-116 | when node ids do not collide, edge ids do not either |
| GraphSanitizer.DistinctIds | graph_utils.py:87-92 | when node ids do not collide, distinct nodes get distinct ids |
| GraphSanitizer.ToPyvisCompatible | graph_utils.py:77-127 | `None` exactly when some node is neither a string nor a tuple, or a kept node or edge attribute is named after a parameter of `add_node` or `add_edge`; otherwise a fresh well-formed graph with string ids and string-keyed attributes, whose node and edge sets are the images of the input's, in the input's order when ids do not collide |
| AttrNormalizer.RenamesBy | graph_utils.py:150-160 | every collected rename has a non-string old key, its new text, and the value the dict holds under the old key |
| AttrNormalizer.FixLevel | graph_utils.py:150-165 | one level keeps keys distinct, and every value it leaves was a value of the dict |
| AttrNormalizer.RenamesKeys | graph_utils.py:152-160 | the renames cover exactly the non-string keys, and their new keys are those keys' texts |
| AttrNormalizer.RenamesOfDistinct | graph_utils.py:152-160 | in a dict, each rename carries the value of its old key, and no old key is renamed twice |
| AttrNormalizer.NothingToRename | graph_utils.py:153 | a dict with only string keys collects no renames |
| AttrNormalizer.ApplyRenamesEntries | graph_utils.py:163-165 | performing the renames keeps keys distinct and leaves only old entries or renamed ones |
| AttrNormalizer.ApplyRenamesKeys | graph_utils.py:163-165 | performing the renames removes the old keys and adds the new ones |
| AttrNormalizer.ApplyRenamesLookup | graph_utils.py:163-165 | when renaming is injective, each value ends up under its key's new text |
| AttrNormalizer.FixLevelKeys | graph_utils.py:150-165 | after one level the keys are exactly the texts of the old keys, all strings |
| AttrNormalizer.FixLevelOfStrKeys | graph_utils.py:153 | a level with only string keys is left unchanged |
| AttrNormalizer.FixLevelLookup | graph_utils.py:150-165 | when no two keys share a text, each value is found under its key's text after one level |
| AttrNormalizer.FixLevelCommutes | graph_utils.py:163-170 | renaming keys and normalising values can be done in either order |
| AttrNormalizer.NormalizedKeysAreStrings | graph_utils.py:143-170 | after normalisation every key of every dict reached through dict values is a string |
| AttrNormalizer.NormalizeKeepsNormal | graph_utils.py:143-170 | a value whose keys are strings in every dict reached through dict values is left unchanged |
| AttrNormalizer.NormalizeIdempotent | graph_utils.py:143-170 | normalising twice is normalising once |
| AttrNormalizer.NormalizeKeys | graph_utils.py:150-165 | the top-level keys afterwards are exactly the texts of the old keys |
| AttrNormalizer.NormalizeKeepsEntries | graph_utils.py:152-170 | when no two keys share a text, every entry survives under its key's text, with its value normalised |
| AttrNormalizer.RenamedKeyOverwrites | graph_utils.py:163-165 | `{"1": a, 1: b}` becomes `{"1": b}`: a renamed key overwrites a string key with the same text |
| AttrNormalizer.FixDictRecursively | graph_utils.py:143-170 | the three loops (collect, rename, recurse) leave exactly the normalised dict |
| AttrNormalizer.FixEdgesEach | graph_utils.py:138-141 | normalising each listed edge once changes exactly those edges' dicts |
| AttrNormalizer.FixNestedKeysInEdgeAttrs | graph_utils.py:129-141 | every edge's attribute dict is replaced by its normalised form; nodes, edges and the edge set are unchanged |
| StringOrder.LessIrreflexive | graph_utils.py:175 | no string sorts before itself |
| StringOrder.LessTransitive | graph_utils.py:175 | string order is transitive |
| StringOrder.LessTotal | graph_utils.py:175 | two different strings are ordered one way or the other |
| StringOrder.LessAsymmetric | graph_utils.py:175 | string order is asymmetric |
| StringOrder.Insert | graph_utils.py:175 | inserting adds exactly the element to the multiset |
| StringOrder.InsertOrdered | graph_utils.py:175 | inserting into a sorted list keeps it sorted |
| StringOrder.Sort | graph_utils.py:175 | `sorted()` returns a permutation of its input |
| StringOrder.SortOrdered | graph_utils.py:175 | `sorted()` returns its input in ascending order |
| MatrixExport.SortSameElements | graph_utils.py:175 | the sorted keys are the outer keys |
| MatrixExport.DictOfDictsToNumpy | graph_utils.py:173-186 | `KeyError` exactly when some pair of outer keys has no score; otherwise a fresh n × n table whose cell (i, j) is the score of the i-th and j-th sorted keys |
| MatrixExport.FillTable | graph_utils.py:176-184 | the table is filled exactly when every pair of the given keys has a score, cell by cell |
| MatrixExport.CopyRow | graph_utils.py:183-184 | row i is filled exactly when all its pairs have scores, and earlier rows are kept |
| MatrixExport.SortedPairsPresent | graph_utils.py:175-184 | every pair of sorted keys has a score exactly when every pair of outer keys does |
| MatrixExport.ExportOfSemanticMatrix | graph_utils.py:173-186 | the exported semantic matrix never raises `KeyError`, is symmetric with 1.0 on the diagonal, and its keys are sorted |
| SemanticMatrix.CategoryTable | semantic_coloring.py:11-26 | a label's category is the list it is in, and `other` is exactly the labels in none of the four lists |
| SemanticMatrix.Dedup | semantic_coloring.py:9 | the outer keys are the nodes, each once |
| SemanticMatrix.Uniform | semantic_coloring.py:39-41 | `random.uniform(lo, hi)` lies in [lo, hi] |
| SemanticMatrix.CategoryMap | semantic_coloring.py:38 | the category of each node, for exactly the nodes |
| SemanticMatrix.ScoredIsConsistent | semantic_coloring.py:35-41 | scores in range for the recorded categories are in range for `get_category` |
| SemanticMatrix.BuildSemanticMatrix | semantic_coloring.py:3-44 | the result has the nodes as keys once each, a score for exactly every pair of nodes, symmetric, 1.0 on the diagonal, [0.8, 1.0] within a category and [0.0, 0.6] across |
| SemanticMatrix.FillRow | semantic_coloring.py:32-43 | one row writes node i against itself and every later node, both ways, in range, and keeps every earlier pair (a repeated node may overwrite its earlier values, as the code does) |
| SemanticMatrix.WritePair | semantic_coloring.py:42-43 | writing a score both ways keeps the table symmetric and in range |
| SemanticMatrix.NextRowFilled | semantic_coloring.py:31-43 | filling row i after rows before it leaves rows 0 to i filled from the diagonal on |
| SemanticMatrix.AllRowsFilled | semantic_coloring.py:31-43 | the upper triangle and symmetry give every pair of nodes a score |
| SemanticMatrix.AllPairsScored | semantic_coloring.py:30-43 | once all rows are filled, the table is a semantic matrix for the nodes |
| SemanticMatrix.AboveThresholdIffSameCategory | semantic_coloring.py:37-41 | in a table whose scores are in range, two different labels score at least 0.7 exactly when they share a category |
| Clustering.Heads | semantic_coloring.py:52 | the representatives are the clusters' first members |
| Clustering.FirstFit | semantic_coloring.py:57-61 | the cluster a node joins lies between the start and the number of clusters |
| Clustering.FirstFitIsFirst | semantic_coloring.py:57-61 | a node joins cluster k exactly when it scores below the threshold against every earlier representative and at least the threshold against the k-th; k equal to the count means it starts a new cluster |
| Clustering.FirstFitFails | semantic_coloring.py:58 | the scan raises `KeyError` exactly when it reaches a representative with no score |
| Clustering.ScanReps | semantic_coloring.py:56-63 | the inner loop, with its `break`, finds the first-fit cluster, and when its `placed` flag stays down the node starts a new cluster |
| Clustering.ClusterKeys | semantic_coloring.py:54-65 | every cluster is non-empty |
| Clustering.FailurePersists | semantic_coloring.py:55-65 | once a `KeyError` is raised, the whole call raises it |
| Clustering.ClusterBySimilarity | semantic_coloring.py:46-66 | the loop computes the clustering, or `KeyError` |
| Clustering.MembersPlace | semantic_coloring.py:59-65 | placing a node adds exactly that node to the clusters |
| Clustering.ClustersPartition | semantic_coloring.py:54-65 | the clusters together hold exactly the keys, each as often as it occurs |
| Clustering.ClusterKeysStep | semantic_coloring.py:55-65 | a successful run places the last key into the clusters of the run on the other keys |
| Clustering.ClustersInKeyOrder | semantic_coloring.py:55-65 | members of each cluster, and the clusters by their representatives, appear in key order |
| Clustering.ClustersFirstFit | semantic_coloring.py:55-65 | every member scores at least the threshold against its representative, and every member, representative or not, below it against the representative of each earlier cluster |
| Clustering.OfCategory | semantic_coloring.py:38 | a category group holds only keys of that category |
| Clustering.CategoryOrder | semantic_coloring.py:38 | the categories, each once, are exactly those some key has |
| Clustering.CategoryGroups | semantic_coloring.py:38 | no category group is empty |
| Clustering.ClustersAreCategoryGroups | semantic_coloring.py:55-65 | when the threshold separates the categories, the clusters are exactly the category groups in order of first appearance |
| Clustering.GroupsSeparateCategories | semantic_coloring.py:37-41 | two members share a group exactly when they share a category |
| Clustering.NoneOfCategory | semantic_coloring.py:38 | a category no key has forms no group |
| Clustering.DistinctCategoriesAreSingletons | semantic_coloring.py:62-65 | keys of pairwise different categories form one singleton cluster each |
| Clustering.CompleteScoresNeverFail | semantic_coloring.py:58 | with every pair scored, clustering never raises `KeyError` |
| Clustering.SemanticClusters | semantic_coloring.py:99-100 | clustering a semantic matrix at 0.7 gives exactly the category groups |
| Coloring.Clamp | semantic_coloring.py:86-88 | `min(max(x, 0), 255)` is x within [0, 255] and the nearer bound outside |
| Coloring.Shade | semantic_coloring.py:83-88 | every channel lies in [0, 255] |
| Coloring.FirstMemberGetsBase | semantic_coloring.py:83-88 | a cluster's first member gets its base colour exactly |
| Coloring.BasesDiffer | semantic_coloring.py:73-83 | clusters whose indices differ mod 6 start from different colours |
| Coloring.ColorsCycle | semantic_coloring.py:83 | the colours repeat every six clusters |
| Coloring.LaterIsDarker | semantic_coloring.py:85-88 | no channel grows along a cluster |
| Coloring.BlackFrom | semantic_coloring.py:86-88 | a member is black exactly when 30 times its position reaches the base colour's brightest channel |
| Coloring.BlackFromTenth | semantic_coloring.py:86-88 | from the tenth member on, the colour is black |
| Coloring.AssignColorsToClusters | semantic_coloring.py:68-90 | the nested loops build the colouring, later assignments overwriting earlier ones |
| Coloring.PaintRowDomain | semantic_coloring.py:85-89 | a cluster colours exactly its members and leaves other colours alone |
| Coloring.PaintRowLast | semantic_coloring.py:85-89 | a member's colour is the shade of its last position in the cluster |
| Coloring.PaintDomain | semantic_coloring.py:82-89 | exactly the clustered nodes get a colour |
| Coloring.PaintLastWins | semantic_coloring.py:82-89 | a node's colour is the shade of its last occurrence |
| Coloring.PaintEachPlace | semantic_coloring.py:82-89 | when no node occurs twice, the node at position p of cluster i gets the shade for (i, p) |
| Coloring.ColorizeNodesBySimilarity | semantic_coloring.py:92-102 | the matrix is a semantic matrix; the clusters are the category groups of the distinct nodes; exactly the nodes are coloured, each by its cluster index and position |

## Left out

- `load_dag_from_file`, `is_valid_dag` and the placeholder generators `generate_dag_algorithm` and `generate_dag_from_dataset` are left out. They are file I/O, a networkx call and fixed example graphs. Logging is left out too.
- `random.uniform` is an injected stream of draws in [0, 1], and scores are exact reals. IEEE rounding is not modelled.
- Colours are integer triples, not the `rgb(r,g,b)` strings.
- `dict_of_dicts_to_numpy` returns an `array2<real>`. The numpy dtype and `np.zeros` are not modelled beyond a zero-filled start.
- Keys are strings, integers, `None` and flat tuples of those. Floats, booleans (with `True == 1` hashing) and nested tuples are not modelled.
- The labels of the similarity dict of dicts are strings only. The code accepts any hashable node id. With labels of mixed types, `sorted` at graph_utils.py:175 raises `TypeError`, and that error path is not modelled.
- `_fix_dict_recursively` recurses once per nesting level. On a very deeply nested attribute dict Python raises `RecursionError`. The model has no depth limit, so that error is not modelled.
- The similarity dict of dicts is a list of outer keys and a pair map. The insertion order of the inner dicts is not kept, because nothing in the core reads it.
- `colorMap` is a map, so the key order of `color_map` is not kept.
- Graph iteration walks nodes and edges in insertion order. networkx walks edges in adjacency order (by source node, then insertion), and that order is not modelled.
- `sorted()` is an insertion sort under code-point order. Only its result matters here.
- The inner loops of `to_pyvis_compatible`, `cluster_by_similarity`, `build_semantic_matrix` and `dict_of_dicts_to_numpy` are separate methods, called once per outer iteration: `CopyNode`, `CopyEdge`, `ScanReps`, `FillRow`, `CopyRow`.
- GraphSanitizer.ToPyvisCompatible: when two input ids convert to the same string, the attributes are merged as networkx does. However, the contract then states only that the copy covers the ids and keeps string keys. It does not state the order or the merged values.
- AttrNormalizer.NormalizeKeepsEntries: the entry-by-entry statement requires that no two keys of a dict share a text. With a collision, `RenamedKeyOverwrites` shows the renamed key winning, but no general statement is made.
- AttrNormalizer.FixNestedKeysInEdgeAttrs: networkx hands out each edge's attribute dict by reference. The model replaces the dict in the edge map, so aliasing between dicts is not captured.
