# URL pattern mining — a Dafny model

This project models the pattern-mining engine of a script that finds "garbage"
host names in a database of URLs and summarises them as regular-expression rules.
The engine is `app/tree_processing/tree_processing.py`. It works in four steps:

- `extract_patterns` splits every host name at its dots and inserts the labels,
  right to left, into a label tree (`TreeNode.add_child`).
- `analyze_tree` walks the tree breadth first with a FIFO queue.
- For each node with children, `analyze_group` asks whether all children are
  leaves and some child length occurs at least twice.
- If it does, `generate_regexp` buckets the child labels by length. It describes
  every column with a `PosDesc` character class (`[a-z]`, `[A-Z]`, `[0-9]`,
  literal symbols), merges equal neighbouring columns into `{n}` repetitions, and
  emits one rule per bucket: `<regexp>.<node label>.<reversed parent path>`.

The model follows the source's own form:

| file | contents |
|---|---|
| `wrappers.dfy` | `Option` (for Python's `None`) |
| `text.dfy` | `str.split('.')`, `'.'.join`, `[::-1]` and the decimal text of an `int`, with their round trips |
| `char_class.dfy` | `PosDesc` as a class with the four dataclass fields. `Add` and `Repr` are methods proved against the functions `AddChar` and `Render`. |
| `label_tree.dfy` | `TreeNode` as a class `LabelTree` over an arena of nodes (index 0 is the root; children are indices). `AddChild` has the source's cursor loop and is proved against the function `InsertFrom`. |
| `regexp.dfy` | `generate_regexp` as the methods of its five loops: `GroupByLength`, `GenerateRegexp`, `DescribePositions`, `CompressRuns` and `RenderStack`. Each is proved against a function (`Lengths`/`Bucket`, `Fragments`, `ColumnDescs`, `Encode`, `RenderRuns`). |
| `mining.dfy` | `analyze_group`, `analyze_tree` and `extract_patterns` as methods. The queue walk is proved equal to a level-order traversal of the tree. |
| `cdn_example.dfy` | A worked run of `extract_patterns` on `a1.cdn.example.com`, `a2.cdn.example.com` and `a3.cdn.example.com`: the tree, the visit order and the one rule. |

Python's iteration order over a `set` (inside `PosDesc.__repr__`) is a parameter
`order: set<char> -> seq<char>`. The lemmas that need it to be a real
enumeration require `IsSetOrder(order)`: every set is listed with each element
exactly once.

Behaviour of the code that the model keeps:

- A column holding only the letter `a` becomes the class `[a-z]`, not the literal `a`, so `a1`, `a2`, `a3` give `[a-z][0-9]` (`Regexp.ExampleSameLength`).
  The whole run on `a1.cdn.example.com`, `a2.cdn.example.com` and
  `a3.cdn.example.com` yields the single rule `[a-z][0-9].cdn.example.com`
  (`CdnExample.ExampleCdn`).
- **Buckets of size one.** `generate_regexp` renders every length bucket of a
  qualifying group, including buckets that hold a single label.
- **Symbols are not escaped.** Symbols are copied into the class as they are.
- **The root's label.** The root's label renders as `None`, so rules for the
  root's children end in `.None.` (`Mining.RootSuffix`).
- **Children of the root.** A child of the root stores the empty parent path,
  so its rules end in a trailing `.` (`Mining.PathSuffix` with a one-label path).

## Model

| member | source | states |
|---|---|---|
| CharClass.AddChar | app/tree_processing/tree_processing.py:17-28 | adding a lower-case letter, capital letter or digit sets exactly the matching flag; any other character is added to the symbol set, which is created on first use; well-formedness is preserved |
| CharClass.PosDesc.Add | app/tree_processing/tree_processing.py:17-28 | the new field values are `AddChar` of the old ones |
| CharClass.PosDesc.constructor | app/tree_processing/tree_processing.py:9-15 | a new descriptor has all three flags false and no symbol set |
| CharClass.AccumulateRecords | app/tree_processing/tree_processing.py:17-28 | after adding a sequence of characters, each flag is set iff some character of that category was added, and the symbol set is exactly the set of symbols added |
| CharClass.AccumulateGrows | app/tree_processing/tree_processing.py:17-28 | adding more characters never clears a flag or removes a symbol |
| CharClass.PosDesc.CategoryRanges | app/tree_processing/tree_processing.py:31-37 | the range text is `a-z`, `A-Z`, `0-9` for the set flags, in that order |
| CharClass.PosDesc.Repr | app/tree_processing/tree_processing.py:30-44 | the rendering is `Render` of the current fields: brackets around the ranges followed by the symbols in set order |
| CharClass.RenderShape | app/tree_processing/tree_processing.py:30-44 | the rendering is `[`, the range text, one copy of each symbol, `]`, and its length is the ranges plus the number of symbols plus two |
| CharClass.RenderFresh | app/tree_processing/tree_processing.py:30-44 | an empty descriptor renders as `[]` |
| CharClass.ReadCategoriesBack | app/tree_processing/tree_processing.py:31-37 | the three flags can be read back from the range text followed by any symbols |
| CharClass.RenderInjective | app/tree_processing/tree_processing.py:30-44 | two well-formed descriptors with the same rendering are equal, so comparing renderings is comparing descriptors |
| LabelTree.MakeNode | app/tree_processing/tree_processing.py:67-73 | the cached length is the label's length (0 for no label); a missing parent path becomes the empty string |
| LabelTree.FindChild | app/tree_processing/tree_processing.py:87-97 | a result is a child of the node carrying the label; no result means that no child carries the label |
| LabelTree.LabelTree.constructor | app/tree_processing/tree_processing.py:226 | a fresh tree is a single root with no label, no children and an empty parent path |
| LabelTree.LabelTree.SearchChildren | app/tree_processing/tree_processing.py:87-97 | the scan over the children finds the position `FindChild` specifies |
| LabelTree.LabelTree.AppendChild | app/tree_processing/tree_processing.py:98-114 | a new child is appended with the parent's path extended by the parent's label, and the tree stays valid |
| LabelTree.LabelTree.AddChild | app/tree_processing/tree_processing.py:75-114 | the tree becomes `InsertFrom` of the old tree and the labels taken from the end, and stays valid |
| LabelTree.AttachValid | app/tree_processing/tree_processing.py:98-114 | appending a child whose label is not already present keeps siblings distinct, stored paths correct and every node with one parent |
| LabelTree.InsertValid | app/tree_processing/tree_processing.py:75-114 | inserting a host name keeps the tree valid |
| LabelTree.InsertExtends | app/tree_processing/tree_processing.py:75-114 | inserting only appends: existing nodes keep their labels and paths, and existing child lists only grow at the end |
| LabelTree.InsertReaches | app/tree_processing/tree_processing.py:75-114 | after insertion, following the reversed labels from the start node reaches a node |
| LabelTree.InsertExisting | app/tree_processing/tree_processing.py:87-97 | inserting an already present path leaves the tree unchanged |
| LabelTree.InsertChangesIff | app/tree_processing/tree_processing.py:75-114 | insertion leaves the tree unchanged iff the path was already present |
| LabelTree.FollowExtends | app/tree_processing/tree_processing.py:75-114 | a path present before an insertion reaches the same node afterwards |
| LabelTree.NodeOfPath | app/tree_processing/tree_processing.py:100-102 | the node reached by a path carries the path's last label and stores the dotted path of the labels before it (each non-empty label preceded by a dot) |
| LabelTree.SplitPathString | app/tree_processing/tree_processing.py:101 | splitting a stored path at its dots gives an empty first segment followed by the non-empty labels |
| Text.JoinSplit | app/tree_processing/tree_processing.py:211 | joining the pieces of a split with dots gives the text back |
| Text.SplitJoin | app/tree_processing/tree_processing.py:229 | splitting a join of dot-free segments gives the segments back |
| Text.ReverseAt | app/tree_processing/tree_processing.py:211 | element `k` of the reversal is element `n-1-k` of the original |
| Text.ReverseAppend | app/tree_processing/tree_processing.py:211 | reversing a concatenation reverses and swaps the parts |
| Text.NatToStringValue | app/tree_processing/tree_processing.py:154 | the decimal text of a repetition count denotes that count and has no leading zero |
| Regexp.GroupByLength | app/tree_processing/tree_processing.py:122-127 | the dictionary keys in insertion order are `Lengths` of the examples, and each key maps to the examples of that length in input order |
| Regexp.AddMember | app/tree_processing/tree_processing.py:124-127 | bucketing one more member keeps the keys equal to `Lengths` and every bucket equal to `Bucket` of the longer member list |
| Regexp.LengthsExact | app/tree_processing/tree_processing.py:122-127 | the keys are distinct and are exactly the lengths that occur |
| Regexp.LengthsFirstSeen | app/tree_processing/tree_processing.py:122-127 | keys are ordered by the first example having each length |
| Regexp.BucketContents | app/tree_processing/tree_processing.py:122-127 | a bucket holds exactly the examples of its length, and it is non-empty iff its length is a key |
| Regexp.DescribePositions | app/tree_processing/tree_processing.py:132-137 | one descriptor per column, each built by adding that column's characters in order |
| Regexp.ColumnDescRecords | app/tree_processing/tree_processing.py:132-137 | the descriptor of column `i` has a flag set iff some member has a character of that category at `i`, and its symbols are exactly the symbols at `i` |
| Regexp.CompressRuns | app/tree_processing/tree_processing.py:139-147 | the stack is a maximal run decomposition of the descriptors (it expands back to them and no neighbouring runs are equal) and equals `Encode` of them |
| Regexp.EncodeExpands | app/tree_processing/tree_processing.py:139-147 | `Encode` expands back to its input and is maximal |
| Regexp.EncodeUnique | app/tree_processing/tree_processing.py:139-147 | any maximal run decomposition of a sequence is `Encode` of it |
| Regexp.EncodeOfExpand | app/tree_processing/tree_processing.py:139-147 | compressing the expansion of a maximal run list gives that run list back |
| Regexp.ExpandLength | app/tree_processing/tree_processing.py:139-147 | a run sequence expands to as many descriptors as its counts add up to |
| Regexp.RenderStack | app/tree_processing/tree_processing.py:149-155 | the text is the runs' renderings in order, a count other than one written as `{n}` |
| Regexp.BucketFragment | app/tree_processing/tree_processing.py:131-155 | one bucket's regexp is `Fragment` of that bucket |
| Regexp.GenerateRegexp | app/tree_processing/tree_processing.py:118-157 | one regexp per distinct length, in first-seen order, each equal to `Fragments` of the examples |
| Regexp.FragmentRuns | app/tree_processing/tree_processing.py:130-157 | the `k`-th regexp renders the unique maximal run decomposition of its bucket's column descriptors, whose counts add up to the bucket's length |
| Regexp.ExampleSameLength | app/tree_processing/tree_processing.py:118-157 | `a1`, `a2`, `a3` give the single regexp `[a-z][0-9]` |
| Regexp.ExampleTwoLengths | app/tree_processing/tree_processing.py:118-157 | `aa`, `bb`, `ccc` give `[a-z]{2}` and then `[a-z]{3}` |
| Mining.AnalyzeGroup | app/tree_processing/tree_processing.py:160-180 | a length is a key iff no node of the group has children and at least two nodes have that length; its value is that count |
| Mining.CountPositive | app/tree_processing/tree_processing.py:168-171 | a length is counted iff some node has it |
| Mining.SubgroupsNonEmpty | app/tree_processing/tree_processing.py:175-180 | the result is non-empty iff all nodes are leaves and some length repeats |
| Mining.FifoSplit | app/tree_processing/tree_processing.py:199-218 | popping a whole queue prefix visits it in order and then continues with the rest followed by the prefix's children |
| Mining.FifoIsLevelOrder | app/tree_processing/tree_processing.py:199-218 | the FIFO queue visits subtrees in level order |
| Mining.LevelOrderVisitsAll | app/tree_processing/tree_processing.py:199-218 | the level order visits as many subtrees as the forest has nodes |
| Mining.NodeRulesShape | app/tree_processing/tree_processing.py:204-215 | a node yields one rule per distinct child length if it has children and its children qualify, none otherwise; rule `k` is the `k`-th regexp of the child labels, a dot, and the node's suffix |
| Mining.EmitRules | app/tree_processing/tree_processing.py:214-215 | rule `k` is regexp `k`, a dot, the node's label, a dot, the parent part |
| Mining.VisitNode | app/tree_processing/tree_processing.py:204-215 | the rules emitted at a node are `NodeRules` of its subtree |
| Mining.RulesOfAppend | app/tree_processing/tree_processing.py:201-218 | the rules of two consecutive visit sequences are concatenated |
| Mining.QueueStep | app/tree_processing/tree_processing.py:201-218 | one pop emits the popped node's rules, enqueues its children, and shrinks the remaining work |
| Mining.Walk | app/tree_processing/tree_processing.py:194-219 | the result is `TreeRules`, and the popped nodes, in order, are the level order of the tree |
| Mining.AnalyzeTree | app/tree_processing/tree_processing.py:194-219 | the same for the arena of a `LabelTree` |
| Mining.ParentPartOfPath | app/tree_processing/tree_processing.py:211 | the parent part of a stored path is its non-empty labels reversed and joined with dots |
| Mining.PathSuffix | app/tree_processing/tree_processing.py:211-215 | a node reached through labels `l1 … ln` gets the suffix `ln.` followed by the non-empty labels before it, reversed, joined with dots |
| Mining.RootSuffix | app/tree_processing/tree_processing.py:211-215 | the root's suffix is `None.` |
| Mining.Build | app/tree_processing/tree_processing.py:226-230 | the tree built from any list of host names is valid |
| Mining.ExtractPatterns | app/tree_processing/tree_processing.py:222-235 | the patterns are `TreeRules` of the tree that inserts each URL's reversed labels in order |
| Mining.BuildReaches | app/tree_processing/tree_processing.py:228-230 | every input host name's reversed labels lead to a node of the built tree |
| Mining.BuildSuffix | app/tree_processing/tree_processing.py:211-230 | every url inserted into the tree reaches a node, and that node's rules end in the url's leftmost label followed by its non-empty labels to the right |
| Mining.BuildDuplicate | app/tree_processing/tree_processing.py:228-233 | repeating a host name already in the list changes neither the tree nor the patterns |
| CdnExample.ExampleCdn | app/tree_processing/tree_processing.py:222-235 | `extract_patterns` on `a1.cdn.example.com`, `a2.cdn.example.com`, `a3.cdn.example.com` returns exactly the one rule `[a-z][0-9].cdn.example.com` |
| CdnExample.BuildUrls | app/tree_processing/tree_processing.py:226-230 | those three host names build the root, `com`, `example`, `cdn` and three leaves `a1`, `a2`, `a3` below `cdn`, with the stored lengths and parent paths |

## Left out

- The driver script `app/main.py`, the database layer and `print_tree` are not part of this model; they do I/O. The driver groups the URLs by project and sorts each group by length before calling `extract_patterns`. That sort only fixes the input order, which the model takes as given: the order of children, buckets and rules follows it, while the set of rules does not depend on it (a property this model does not state).
- `str.isalpha`, `islower`, `isupper` and `isdigit` are modelled on ASCII only. Under ASCII the source's branch for a letter that is neither lower nor upper case cannot be taken; it is kept, but it has no effect.
- Python's iteration order over a set is the parameter `order`. The model assumes the same set is always listed in the same order.
- Node identity and aliasing are modelled by arena indices. The class-level default `children = []` is never observed, because `__init__` always sets the field.
- Python's `int` and `str` are unbounded here, as in Python.
- Mining.Walk: the `x is not None` test is always true, because only nodes are enqueued, so the model has no branch for it. The contract speaks of the subtree below the root; it does not also state that every arena node is reachable from the root (InsertFrom appends only reachable nodes, but no lemma states this).
- LabelTree.LabelTree.AddChild: the source descends into a matching child by a recursive `add_child` call and then keeps scanning the remaining siblings. The model continues its loop from that child instead. The two agree because siblings carry distinct labels (`DistinctSiblings`, kept by `AttachValid`), so the rest of the scan finds nothing.
