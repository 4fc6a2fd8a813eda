# pydtstool core, modelled in Dafny

This project models the core of pydtstool, a toolkit for device-tree
source (DTS) files. The toolkit reads DTS text into a tree of nodes that
carry typed properties. It merges the blocks that name the same node,
prints the tree back as DTS and compares two trees. It also exports a
tree to nested dictionaries, reads such dictionaries back, and draws a
box outline of the tree.

The repository holds two generations of the same code. The current one
is the `pyDtsTool` package. The earlier one is `device_tree/`,
`dtsgen/`, `importer/parsing.py`, `importer/building.py` and
`common/signature.py`. The earlier one differs in a few ways:

- a node has one optional `handle` instead of a label list;
- a node starts with the property `status = "okay"`;
- tuples render with padded spacing;
- nodes merge in one pass, `merge_by_handle`.

The model shares one data model between the generations. A `Dialect`
(`Current` or `Legacy`) selects the differences.

Layout, one module per file:

- `wrappers.dfy` — `Option`, `Result`, `Outcome`, and the Python exceptions the code raises.
- `text.dfy` — `str.strip`, `split` and `join`, hexadecimal digits, and `int(x, 16)`.
- `odicts.dfy` — insertion-ordered dictionaries as association lists.
- `properties.dfy` — the property variants, the factory `new_node_property`, `type_match`, `first`, and rendering and printing.
- `signature.dfy` — the signature pattern (`l1: l2: name@addr`, `&ref`) as a recogniser, both generations.
- `nodes.dfy` — the node record, signature validation, the constructor, `signature`, `pathname`, and the property-list edits.
- `trees.dfy` — the node arena (a map from node id to record, with parent and child links), `set_parent`, `join` and `path`.
- `registry.dfy` — `_all_nodes` as a list of (handle, node) entries, `add_node`, the name, ref and path indexes, grouping, and `get_node_from_tuple`.
- `device_tree.dfy` — the `DeviceTree` class: the fields the source updates in place, its methods, and the whole-file `__str__`.
- `merges.dfy` — `merge_refs`, `merge_paths` and `merge`.
- `handles.dfy` — the single-handle `merge_by_handle`.
- `printer.dfy` — the recursive node `print`.
- `comments.dfy` — `remove_comments`, both generations.
- `scanner.dfy` — `collect_subnodes`, both generations.
- `lexer.dfy` — `parse_property`.
- `dictmerge.dfy` — `merge_dict`.
- `growth.dfy` — node creation as seen by the two builders.
- `importer.dfy` — `DtImporter`: `extract_gcc`, `extract_nodes`, `parse`, `build_node` and `build`.
- `comparator.dfy` — `Comparator`: `missing_nodes`, `_node_diff`, `get_diff` and `_cleanup_diff`.
- `dictify.dfy` — `Dictifier.generate` and `dictify_node`.
- `undictifier.dfy` — `UnDictifier.populate` and `undictify_node`.
- `graph.dfy` — `add_child_to_tree` and `treegraph`.

Walks over the tree carry a step bound `Depth(heap)`, one more than the
number of nodes. These walks are the path loop, `print`, `dictify_node`,
`_node_diff` and the outline. If the bound runs out, the result is the
error `Diverges`. Separate lemmas show that the bound never runs out on
an acyclic tree: `Trees.PathEnds`, `Printing.PrintEnds`,
`Dictify.DictifyEnds`, `Comparing.NodeSelf` and `TreeGraphs.SubtreeEnds`.

## Model

| member | source | states |
|---|---|---|
| Properties.NewProperty | pyDtsTool/node_properties.py:219-243 | The factory accepts exactly the values `Accepted` describes. These are None or a bool, an int, a string, a tuple (not in the legacy generation), or a non-empty list of ints, strings or tuples. An empty list raises ValueError. Anything else raises TypeError. The property built reports the value it was given, with None and bools reporting True, and `type_match`es it. |
| Properties.NewPropertyOfPropertyValue | pyDtsTool/node_properties.py:219-243 | Rebuilding a well-formed property from the value it reports gives the same property. |
| Properties.PropertyValueInjective | pyDtsTool/node_properties.py:82-84 | Two well-formed properties that report the same `property_value` are equal, so the reported value determines the variant. |
| Properties.First | pyDtsTool/node_properties.py:86-87 | `first()` of a bool is True. Of a scalar it is the scalar itself. Of a tuple it is its first cell, and an empty tuple raises StopIteration. Of a list it is its first element. |
| Properties.Tab | pyDtsTool/node_properties.py:51-56 | The tab unit is four spaces with soft tabs and one tab character without. |
| Properties.Repeat | pyDtsTool/node_properties.py:71-72 | `tab * indent` is `indent` times as long as the tab unit and holds only its characters. |
| Properties.TupleToStringSplit | pyDtsTool/node_properties.py:12-19 | Splitting the current rendering of a tuple at spaces gives its cells back. |
| Properties.LegacyTuplePadded | device_tree/node_properties.py:4-8 | The legacy rendering is the current one with a space added on each side. |
| Properties.Inline | pyDtsTool/node_properties.py:117-126 | `__str__` fails exactly for an int list, where `str.join` meets ints. Every other result starts with the property name and ends with `;`. A valued property starts with `name = `. |
| Properties.PrintShape | pyDtsTool/node_properties.py:104-105 | `print(indent)` fails exactly for an int list, and for a legacy string list, whose `print` returns None. Otherwise it starts with the indentation and the name and ends with `;`. A scalar prints as the indentation followed by its inline form. |
| Properties.MultiLineSplit | pyDtsTool/node_properties.py:177-183 | A multi-line list print splits at newlines into exactly its lines. These are the `name =` header and then one line per element, so there are one more lines than elements. |
| Properties.MultiLineShape | pyDtsTool/node_properties.py:210-216 | A multi-line print starts with the indented `name` and ends with `;`. |
| Properties.PrintLines | pyDtsTool/node_properties.py:177-183 | The `ret_str` loop of the list `print` methods builds the multi-line text: each element but the last ends with `,` and the last ends with `;`. |
| Properties.PrintProperty | pyDtsTool/node_properties.py:71-72 | The imperative `print(indent)` of any property equals the function `Print`. |
| Properties.PrintAltProperty | pyDtsTool/node_properties.py:195-201 | The `print_alt` loop of an int list equals the multi-line form over the ints. |
| Nodes.Validate | pyDtsTool/node.py:36-50 | `_validate_signature` passes exactly when there is a nodename or a ref but not both, neither is blank, and labels come only with a nodename. It raises "no signature" exactly when all three are missing, and "ambiguous" exactly when both names are given. Every failure is a NodeSignatureError. |
| Nodes.LegacyValidateAgrees | device_tree/node.py:28-42 | The legacy validation is the current one applied to the one-element label list. |
| Nodes.ParseReg | pyDtsTool/node.py:80-85 | A missing address stays missing. A hexadecimal address becomes its value, and any other text is kept as text. |
| Nodes.RegProps | pyDtsTool/node.py:86-87 | A `reg` property is added exactly when an address is given, holding the parsed value or the text. |
| Nodes.NewRecord | pyDtsTool/node.py:57-91 | The constructor succeeds exactly when validation passes, and fails with the validation error otherwise. It keeps the names, the parent and empty child and directive lists. The current generation parses the address and the legacy one keeps it. Property names are unique, and `reg` is present exactly when an address is given. A legacy node's first property is `status = "okay"`. |
| Nodes.Signature | pyDtsTool/node.py:113-126 | A ref node's signature is `&ref`. The signature raises only for a node with neither a ref nor a nodename. |
| Nodes.LegacySignature | device_tree/node.py:93-104 | `&ref` for a ref node. An address kept as text raises TypeError in `hex`. Otherwise it is the current signature. |
| Nodes.Pathname | pyDtsTool/node.py:136-144 | `pathname` raises exactly for an address without a name. It is None exactly when there is neither a name nor an address. |
| Nodes.SignatureIsLabelsAndPathname | pyDtsTool/node.py:113-144 | A named node's signature is its labels, each followed by `: `, then its path name. |
| Nodes.NamesOfNewRecord | pyDtsTool/node.py:128-134 | `names` of a new node gives back the nodename, labels and ref it was built from, with the address parsed. |
| Nodes.SignatureRoundTrip | pyDtsTool/common/signature.py:18-33 | Take a canonical `l1: l2: name@addr`: the address is not hexadecimal, or is lower-case hexadecimal without a leading zero. Parse it, build a node from the fields and print its signature, and the text comes back. |
| Nodes.LegacySignatureRoundTrip | common/signature.py:12-21 | The same round trip for the legacy `handle: name`. |
| Nodes.IndexOf | pyDtsTool/node.py:100-102 | `property_index[name]` finds the last property of that name. It finds nothing exactly when no property has the name. |
| Nodes.SetPropertySpec | pyDtsTool/node.py:161-175 | `set_property` keeps names unique and leaves every other name unchanged. `True` on an existing name changes nothing. `False` removes it. On success the name then reports the given value. On an absent name it succeeds exactly when the factory accepts the value. |
| Nodes.SetPropertyInPlace | pyDtsTool/node.py:171-172 | A type-matching value updates the property where it stands: same position, same length. |
| Nodes.UnsetPropertySpec | pyDtsTool/node.py:177-181 | `unset_property` removes exactly the named property, if present, and nothing else. |
| Nodes.ExtendList | pyDtsTool/node.py:187-188 | Extending a list property with items of its element type appends them where the property stands. |
| Nodes.ExtendPromotes | pyDtsTool/node.py:189-191 | Extending a scalar with items of its type replaces it by the list of the items followed by the old value, placed last. |
| Nodes.ExtendMismatch | pyDtsTool/node.py:192-193 | A value that matches neither the list nor its first element raises ValueError and changes nothing. |
| Nodes.ExtendLegacyBool | device_tree/node.py:131-132 | In the legacy generation, extending a bool property by a list that starts with a bool raises AttributeError, because the bool class has no `property_value`. Nothing changes. |
| Nodes.ExtendAbsent | pyDtsTool/node.py:185-186 | Extending an absent name creates the list property. |
| Nodes.AddDirective | pyDtsTool/node.py:91 | `dtc[key].append` raises KeyError exactly for a key other than the three directive lists. Otherwise it adds one entry to those lists and changes nothing else. |
| Trees.ReparentSpec | pyDtsTool/node.py:93-98 | `set_parent` keeps the links consistent. Afterwards the node is listed last by the new parent and by no other node, and only the two parents and the node change. |
| Trees.AddLabelsSpec | pyDtsTool/node.py:221-224 | `join` adds the joined node's labels that are not yet present, each once. |
| Trees.SetPropertyWellFormed | pyDtsTool/node.py:161-175 | `set_property` only ever stores factory-built properties. |
| Trees.SetAllSpec | pyDtsTool/node.py:225-226 | The property loop of `join` never raises on well-formed properties. It keeps names unique and values well formed, and leaves every name holding `JoinedValue` of the two nodes' values. |
| Trees.MoveChildrenSpec | pyDtsTool/node.py:227-230 | On distinct children not yet listed, the child loop appends them all to the receiver and points each at the receiver. |
| Trees.JoinSpec | pyDtsTool/node.py:219-231 | `join` on a consistent arena succeeds and keeps it consistent. The receiver gains the new labels and the joined values. The joined node ends with no children. |
| Trees.JoinClosed | pyDtsTool/node.py:219-231 | Joining, even a node into itself, keeps ids closed and property lists well formed. It changes no node outside the two and their children. |
| Trees.PathWalkSpec | pyDtsTool/node.py:147-159 | The while-loop of `path` computes the recursive definition. |
| Trees.PathOfChild | pyDtsTool/node.py:147-159 | A child's path is its parent's path, then its own segment and `/`, with spaces removed. |
| Trees.RootPath | pyDtsTool/node.py:147-159 | The root `/` has path `//`. |
| Trees.PathEnds | pyDtsTool/node.py:147-159 | On an acyclic tree the walk, bounded by one more than the number of nodes, never runs out of steps. |
| DeviceTrees.RootRecordBuilt | pyDtsTool/device_tree.py:28 | The root record is what `Node(nodename='/')` builds. |
| DeviceTrees.DeviceTree.constructor | pyDtsTool/device_tree.py:22-28 | A new tree has no file name, version 1, nothing included, defined or special, and only the root `/`, under handle 0. |
| DeviceTrees.DeviceTree.NewDeviceTree | device_tree/device_tree.py:13-20 | `new_devicetree` fails with TypeError exactly for a file name that is not a string. Otherwise it returns a fresh tree with that name. |
| DeviceTrees.DeviceTree.NodesBy | pyDtsTool/device_tree.py:80-98 | `nodes_by_name` and `nodes_by_ref` equal `Index` over the registry (see IndexSpec). |
| Registry.IndexSpec | pyDtsTool/device_tree.py:80-98 | The index holds each key once. A key is present exactly when some registered node has it, and maps to the last such node. |
| Registry.GroupSpec | pyDtsTool/device_tree.py:100-120 | The defaultdict grouping has a key exactly for the tags some row carries. Each key lists the handles of those rows, in order. |
| Registry.HitsIncreasing | dtsgen/device_tree.py:145 | Rows with increasing handles give each group in increasing order, so `sorted(indexes)` is the group itself. |
| DeviceTrees.DeviceTree.IndexesBy | pyDtsTool/device_tree.py:107-120 | `_node_indexes_by_ref`, `_node_indexes_by_handle` and the single-handle `_node_indexes_by_refhandle` (dtsgen/device_tree.py:104-111) are the grouping of their rows. |
| DeviceTrees.DeviceTree.IndexesByPath | pyDtsTool/device_tree.py:100-105 | `_node_indexes_by_path` groups every handle under its node's path. A path that raises aborts it with that error. |
| DeviceTrees.DeviceTree.NodePaths | pyDtsTool/device_tree.py:173-174 | `node_paths` is exactly the set of paths of the registered nodes. |
| DeviceTrees.PathKeys | pyDtsTool/device_tree.py:173-174 | The keys of `_node_indexes_by_path()` are exactly the paths of the registered nodes. |
| Registry.FromTuple | pyDtsTool/device_tree.py:122-130 | With a nodename, the first by-name entry whose key starts with the name and whose node has the tuple's address. With only a ref, the by-ref entry. Otherwise nothing. A node found is in the tree. |
| Registry.FromTupleMissesParsedAddress | pyDtsTool/device_tree.py:127 | A node whose address parsed as hex is never found by a named tuple, since the tuple's address is text. |
| DeviceTrees.DeviceTree.GetNodeFromTuple | pyDtsTool/device_tree.py:122-130 | The method returns `FromTuple`. |
| Registry.Add | pyDtsTool/device_tree.py:144-148 | `add_node` appends the node under a handle above every existing one. An empty registry raises ValueError in `max`. The registry stays strictly increasing. |
| Registry.At | pyDtsTool/device_tree.py:156 | `_all_nodes[k]` raises KeyError exactly when no entry has handle `k`. Otherwise it gives that entry's node. |
| Registry.Pop | pyDtsTool/device_tree.py:159 | `pop(k)` raises KeyError exactly when `k` is absent. Otherwise it gives the node `_all_nodes[k]` holds. |
| Registry.RemoveSlot | pyDtsTool/device_tree.py:159 | Popping a handle from a registry with distinct handles filters that handle out and keeps the order. |
| DeviceTrees.DeviceTree.AddNode | pyDtsTool/device_tree.py:144-148 | The method registers the node as `Add` says and changes nothing else. |
| DeviceTrees.DeviceTree.Construct | pyDtsTool/node.py:74-90 | The constructor's record, or its error. A parent that is not a node of the tree raises TypeError. Otherwise the node goes under a fresh id, last in its parent's children. |
| DeviceTrees.DeviceTree.NewNode | pyDtsTool/device_tree.py:132-142 | `new_node` splits a label string on `: `, constructs the node and registers it. It returns the handle and the node, or the constructor's or registry's error. The rest of the tree is unchanged. |
| DeviceTrees.DeviceTree.LegacyNewNode | dtsgen/device_tree.py:123-132 | The same for the single-handle tree, over the legacy constructor. |
| Growth.CreateSpec | pyDtsTool/device_tree.py:132-148 | `new_node` fails exactly for a refused record, a parent outside the tree or an empty registry, and the registry is then unchanged. On success the record sits under the next fresh id, its parent lists it last, and it is registered last under a handle above all others. |
| DeviceTrees.DeviceTree.SetParent | pyDtsTool/node.py:93-98 | The method does what `Reparent` does. ValueError when the old parent does not list the node. |
| DeviceTrees.DeviceTree.SetNodeProperty | pyDtsTool/node.py:161-175 | The node's property list becomes `SetProperty`'s result and no other node changes. |
| DeviceTrees.DeviceTree.UnsetNodeProperty | pyDtsTool/node.py:177-181 | The node's property list becomes `UnsetProperty`'s result and no other node changes. |
| DeviceTrees.DeviceTree.ExtendNodeProperty | pyDtsTool/node.py:183-193 | The node's property list becomes `ExtendPropertyList`'s result and no other node changes. |
| DeviceTrees.DeviceTree.AddNodeDirective | pyDtsTool/node.py:91 | `dtc[key].append(value)` on one node, with KeyError for an unknown key. |
| DeviceTrees.DeviceTree.JoinNodes | pyDtsTool/node.py:219-231 | `a.join(b)` always succeeds on the tree and leaves `JoinHeap`'s arena. |
| DeviceTrees.ExtendKeepsOk | pyDtsTool/node.py:183-193 | `extend_property_list` keeps names unique and stores only factory-built values. |
| Merging.RefLedgerOutcome | pyDtsTool/device_tree.py:150-162 | The only errors of `merge_refs` are the duplicate-label assertion and a labelled node that has already left the registry. A completed pass found exactly one labelled node for every ref that is a label. |
| Merging.RefLedgerRegistry | pyDtsTool/device_tree.py:157-159 | When the pass completes, exactly the folded handles have left the registry, and the other entries keep their order. |
| Merging.RefLedgerKeeps | pyDtsTool/device_tree.py:153-154 | An entry under a handle that no group folded, such as a ref that is nobody's label, is still registered. |
| Merging.RefLedgerLast | pyDtsTool/device_tree.py:155-161 | A completed group whose ref is a label adds one batch of joins: the nodes it popped, folded into the node registered under that one label. |
| Merging.MergeRefsGroup | pyDtsTool/device_tree.py:155-161 | Group `n` of `merge_refs` on the arena: when its ref is a label, each popped node has its ref cleared and is joined into the labelled node, in order. |
| Merging.MergeRefsSpec | pyDtsTool/device_tree.py:150-162 | At the end of `merge_refs`, the folded handles are gone from the registry and every node they named has its ref cleared. |
| Merging.ApplyFoldsKeeps | pyDtsTool/device_tree.py:153-154 | A node that no clearing join takes as a child keeps its ref. |
| Merging.PathLedgerRegistry | pyDtsTool/device_tree.py:164-171 | A completed `merge_paths` leaves the registry without every index but the first of each shared path. |
| Merging.PathLedgerJoins | pyDtsTool/device_tree.py:167-170 | Batch `i` of joins folds the later indexes of group `i` into the node of its first index, in order. |
| Merging.PathLedgerLength | pyDtsTool/device_tree.py:166 | A completed pass makes one batch of joins per shared path. |
| Merging.Merge | pyDtsTool/device_tree.py:176-178 | `merge` is `merge_refs`, then `merge_paths` unless the first raised. The node set stays the same and the arena stays sound. |
| DeviceTrees.DeviceTree.MergeRefs | pyDtsTool/device_tree.py:150-162 | The method leaves the state `Merging.MergeRefs` describes. |
| DeviceTrees.DeviceTree.MergePaths | pyDtsTool/device_tree.py:164-171 | The method leaves the state `Merging.MergePaths` describes. |
| DeviceTrees.DeviceTree.Merge | pyDtsTool/device_tree.py:176-178 | The method leaves the state `Merging.Merge` describes. |
| ByHandle.FindTop | dtsgen/device_tree.py:143 | The `next(...)` search finds the first member, from the position on, whose slot is live and labelled. It raises StopIteration exactly when every remaining member is live and unlabelled. Its other errors are AttributeError (a slot already set to None) and KeyError. |
| ByHandle.AnchorFirst | dtsgen/device_tree.py:142-144 | The anchor of every group of a completed run is the first live, labelled member, in the state the earlier groups left. |
| ByHandle.HandleSweepPass | dtsgen/device_tree.py:142-148 | A completed run takes one anchor from each group and makes one batch joining the other members into it. |
| ByHandle.KillStep | dtsgen/device_tree.py:145-148 | A completed group sets exactly its members other than the anchor to None. |
| DeviceTrees.DeviceTree.MergeByHandle | dtsgen/device_tree.py:140-150 | The method leaves the state `ByHandle.MergeByHandle` describes: the groups folded in turn, and the registry without the slots set to None. |
| Printing.PrintNodeLines | pyDtsTool/node.py:198-217 | A printed node is, in order: a blank line and the include lines (current printer only); the `signature {` line; the delete directives; each property's print and a newline; each child's print and a newline; `};` at the node's indent. |
| Printing.PrintNodeShape | pyDtsTool/node.py:198-217 | A print starts with the opening: for the current printer a newline and the include block, then the indented signature line. It ends with the closing `};` at the node's indent. |
| Printing.PrintNodeFails | pyDtsTool/node.py:211-212 | A property that cannot print makes the whole print fail with TypeError once the signature prints. |
| Printing.PropTextFails | pyDtsTool/node.py:211-212 | The property lines fail exactly when some property cannot print. |
| Printing.IncludeBlankLine | pyDtsTool/node.py:201-204 | With distinct includes, the include block is followed by exactly one blank line. |
| Printing.RepeatedIncludeNoBlankLine | pyDtsTool/node.py:203 | If the last include also occurs earlier, no blank line follows the block, because `index` finds the first position. |
| Printing.PrintEnds | pyDtsTool/node.py:198-217 | On an acyclic tree, a print whose bound exceeds what the node's height leaves never runs out of steps. |
| DeviceTrees.TreeTextLines | pyDtsTool/device_tree.py:30-55 | The printed file is the preamble, the root's text, then each ref node's block, in order. It prints exactly when the root and every ref node print. |
| DeviceTrees.PreambleLines | pyDtsTool/device_tree.py:31-49 | The preamble is, in order: the banner; the version line and a blank line; one line per special item; one `#include` per include; a blank line; one `#define` per define; a blank line. |
| DeviceTrees.RefsTextFirstError | pyDtsTool/device_tree.py:53-54 | A failing ref loop stops at its first node that cannot print, with that node's error. |
| DeviceTrees.DeviceTree.ToText | pyDtsTool/device_tree.py:30-55 | The imperative `__str__`, with its accumulating loops, returns `TreeText`. |
| Signatures.ParseRef | pyDtsTool/common/signature.py:10 | `&name` parses to ref `name`, with no nodename, no labels and no address. |
| Signatures.ParseRendered | pyDtsTool/common/signature.py:10-32 | Parsing a canonical `l1: l2: name@addr` recovers the labels, the name and the address text. |
| Signatures.LegacyParseRef | common/signature.py:4 | `&name` parses to ref `name` in the legacy pattern. |
| Signatures.LegacyParseRendered | common/signature.py:4-21 | Parsing a canonical legacy `handle: name@addr` recovers the handle, the name and the address. |
| Signatures.LegacyHandleThenName | common/signature.py:5-6 | With a handle, the legacy pattern takes the word run before `:` as the handle and the name after the whitespace. |
| Comments.UnmarkedLineKept | pyDtsTool/importer/parsing.py:43-52 | A line with no comment marker, outside a block comment, is kept as it is, unless the current stripper sees a line marker. |
| Comments.LineMarkerBlanked | pyDtsTool/importer/parsing.py:46-48 | Every line of the `linker` shape is recognised as a line marker, and the current stripper blanks it and keeps the block state. The shape is optional blanks, `#`, a character other than `i` and `d`, digits, whitespace and a quote. |
| Comments.LineMarkerCurrent | pyDtsTool/importer/parsing.py:46-48 | The marker `# 1 "a.dts"` is one such line, and the current stripper blanks it. |
| Comments.LineMarkerLegacy | importer/parsing.py:19-25 | The legacy stripper keeps the same line. |
| Comments.LineCommentCut | pyDtsTool/importer/parsing.py:74-75 | `//` drops the rest of the line. |
| Comments.InlineBlockCut | pyDtsTool/importer/parsing.py:61-63 | A block comment closed on the same line loses only its body. The text before and after it stays, and the state is unchanged. |
| Comments.BlockOpens | pyDtsTool/importer/parsing.py:64-66 | An unclosed `/*` drops the rest of the line and enters the block state. |
| Comments.InsideBlock | pyDtsTool/importer/parsing.py:67-73 | Inside a block comment a line without markers is left blank and the state stays open. The current stripper empties it. |
| Comments.BlockCloses | pyDtsTool/importer/parsing.py:67-71 | The line carrying `*/` ends the block state and keeps the text on both sides of the closer. |
| Comments.NonBlankMembers | pyDtsTool/importer/parsing.py:81-89 | A line survives the deletion loop exactly when it occurs in the input and is not whitespace-only. |
| Comments.NonBlankIdempotent | pyDtsTool/importer/parsing.py:81-89 | Filtering the filtered lines changes nothing. |
| Comments.UncommentedClean | pyDtsTool/importer/parsing.py:39-90 | No whitespace-only line is left after `remove_comments`, and no line is added. |
| Comments.RewriteLines | pyDtsTool/importer/parsing.py:42-80 | The rewriting loop replaces each line in place by its rewritten text, threading the block state. |
| Comments.DropBlankLines | pyDtsTool/importer/parsing.py:81-89 | The restart-from-zero deletion loop leaves exactly the non-blank lines, in order. |
| Comments.RemoveComments | pyDtsTool/importer/parsing.py:39-90 | `remove_comments` rewrites the same list object in place and returns it, holding the non-blank rewritten lines. |
| Scanner.OpenerShape | pyDtsTool/importer/parsing.py:17-19 | On `t {x`, for a signature `t` of class characters that does not start with whitespace, the signature is `t` and the extra text is `x`. |
| Scanner.NoBracesNoMatch | pyDtsTool/importer/parsing.py:17-19 | `node_match` finds nothing on a line without braces. |
| Scanner.CollectPlain | pyDtsTool/importer/parsing.py:118-120 | Lines without braces are appended to the block's own lines, in order. The current scanner strips them. |
| Scanner.CollectCloses | pyDtsTool/importer/parsing.py:116-117 | `};` ends the body and the lines after it are returned with the block. |
| Scanner.OpensChild | pyDtsTool/importer/parsing.py:103-115 | The child body is collected from the text after `{`, when that is not blank, and the following lines. The child's block is recorded under its signature. |
| Scanner.RecordSpec | pyDtsTool/importer/parsing.py:110 | For a repeated child signature, the current scanner keeps one entry holding the merge of both blocks. The legacy one (importer/parsing.py:104) keeps only the later block. Other entries are unchanged. |
| Scanner.CollectUnclosed | pyDtsTool/importer/parsing.py:121 | A body that never closes returns no remaining lines in the current scanner. The legacy one (importer/parsing.py:93-115) falls off its loop, and unpacking its None raises TypeError. |
| Scanner.CollectSubnodes | pyDtsTool/importer/parsing.py:93-121 | The index loop that rebinds `data` computes `Collect`. |
| DictMerge.MergeKeys | pyDtsTool/importer/parsing.py:160-177 | The merged keys are the first dictionary's in order, then the second's new ones in order. |
| DictMerge.MergeHas | pyDtsTool/importer/parsing.py:160-177 | A key is in the merge exactly when it is in either input. |
| DictMerge.MergeGet | pyDtsTool/importer/parsing.py:162-176 | A shared key holds the merge of its two values (`MergeValue`: dictionaries merge, lists concatenate, strings are joined). A key only one input has keeps that input's value. |
| DictMerge.MergeErrors | pyDtsTool/importer/parsing.py:160-177 | `merge_dict` can only raise AttributeError, when `.keys()` is called on a non-dictionary, and TypeError, from list concatenation. |
| DictMerge.SharedClash | pyDtsTool/importer/parsing.py:163-171 | The merge fails whenever a shared key's values cannot be merged. |
| DictMerge.MergeIntoEmpty | importer/building.py:4-21 | Merging a dictionary into `{}` gives it back. |
| DictMerge.MergeWithEmpty | importer/building.py:4-21 | Merging `{}` into a dictionary changes nothing. |
| DictMerge.RecordMerges | pyDtsTool/importer/parsing.py:110 | What the scanner stores under a repeated signature is `merge_dict` of the two blocks' dictionaries. |
| Lexer.SearchElement | pyDtsTool/importer/parsing.py:36 | The hit `prop_match.search` reports is the element pattern (quoted, angled or macro) matching at that position, and no element starts earlier. |
| Lexer.LastDoubleIsLast | pyDtsTool/importer/parsing.py:36 | The greedy `\w*` of the macro pattern stops at the last `__`. |
| Lexer.ParseProperty | pyDtsTool/importer/parsing.py:124-157 | The two loops of `parse_property` compute `ParseValue`. Each round cuts the text by the element's length from the start of the remaining text, as the source does. |
| Lexer.CollectElements | pyDtsTool/importer/parsing.py:127-137 | The first loop gathers the element texts the as-written cut finds, and the value of the last one. |
| Lexer.ParseValueDirect | pyDtsTool/importer/parsing.py:138-149 | The second loop changes nothing: a list holds the values of the elements the first loop found. |
| Lexer.ParseRender | pyDtsTool/importer/parsing.py:124-157 | Reading back a rendering of canonical elements gives: the list of their values for two or more; the one value for one; None for none. |
| Lexer.AsWrittenWhenAligned | pyDtsTool/importer/parsing.py:134 | Cutting by the element's length and cutting after the element agree whenever each element starts where the remaining text starts. |
| Lexer.AsWrittenRepeats | pyDtsTool/importer/parsing.py:134 | With text before the first element, the as-written cut reads that element twice: `ab "x", "y"` gives the texts `"x"`, `"x"`, `"y"`. The cut after the element reads each once (`ShiftedPieces`). |
| Importing.GccPass | importer/importer.py:32-41 | `extract_gcc` finishes exactly when no line is a `#define` without a name, and otherwise raises IndexError. |
| Importing.GccIncludes | importer/importer.py:37-38 | When it finishes, the include list has every include text appended, in line order. |
| Importing.GccDefineLast | importer/importer.py:39-41 | A name holds the value of its last define, with the words joined by single spaces. A name no line defines keeps its earlier value. |
| Importing.DtImporter.ExtractGcc | importer/importer.py:32-41 | The method changes only the include list and the define table, as `GccFrom` says. |
| Importing.ExtractKeys | importer/importer.py:57-60 | `extract_nodes` stores each signature once. A signature seen again keeps the place of its first block. |
| Importing.MergeEmpty | importer/importer.py:57-60 | The first block of a signature is stored as it was collected. |
| Importing.ExtractPlain | importer/importer.py:64-65 | Lines without braces hold no block, and the scan passes over them. |
| Importing.ExtractStrayCloser | importer/importer.py:47-65 | Any top-level `};` is where the loop never ends. |
| Importing.DtImporter.ExtractNodes | importer/importer.py:43-65 | The method changes only the blocks by signature, as `Extract` says. |
| Importing.DtImporter.Parse | importer/importer.py:67-73 | `parse` removes comments in place unless asked to keep them, then extracts includes and defines, then node blocks. |
| Importing.AssignShape | importer/importer.py:84-87 | `name = value` assigns the value text after `=` to the name. |
| Importing.DirectiveShape | importer/importer.py:90-91 | `/tag/ text` is a directive with that tag and text. |
| Importing.BareNameIgnored | importer/importer.py:79-89 | Text without `/`, `=` or `;` is no statement. Because `;` is cut before matching, a boolean `name;` sets nothing. |
| Importing.DtImporter.ApplyLines | importer/importer.py:76-92 | The statement loop collects stripped lines until one ends in `;`, then cuts that `;` and applies the statement (`OwnFrom`). |
| Importing.LastReusableSpec | importer/importer.py:96-99 | The child search finds a child exactly when some child is reusable, and then finds the last one. |
| Importing.ChildReuse | importer/importer.py:93-102 | When some child has the block's name and address, the block is built into the last such child and nothing is created. |
| Importing.NoReuse | importer/importer.py:97-98 | A child whose address parsed as a number is never reused, and neither is any child for a block without an address. A new child is made then. |
| Importing.ReusableChild | importer/importer.py:96-99 | The loop over the children returns the last reusable child. |
| Importing.TopNodeFound | importer/importer.py:107-108 | In `build`, a node the registry finds for the tuple is used and nothing is created. |
| Importing.TopNodeCreated | importer/importer.py:108-109 | Otherwise a new parentless node with the tuple's name, labels, ref and address is registered last. |
| Importing.BuildAllCount | importer/importer.py:104-110 | `build()` adds at most one registry entry per block. |
| Importing.DtImporter.Build | importer/importer.py:104-110 | The method computes `BuildAll` over the tree. |
| Importing.DtImporter.BuildNode | importer/importer.py:75-102 | `build_node` computes `BuildBlock` over the tree. |
| Comparing.PropDiffsMeaning | pyDtsTool/comparator.py:41-50 | The property part of a report holds, under each name, exactly `PropEntry`, and no name twice. That is `{1: v, 2: *missing}` for a name only the first node has, `{1: *missing, 2: v}` for the reverse, both values when they differ, and nothing when they are equal. |
| Comparing.ChildrenPaired | pyDtsTool/comparator.py:53-60 | Children are paired by path name. A paired child is reported by its own comparison when that is non-empty and not at all otherwise. |
| Comparing.ChildrenUnpaired | pyDtsTool/comparator.py:53-64 | A child only one node has is reported `*present`/`*missing` on the right sides. |
| Comparing.CleanupMeaning | pyDtsTool/comparator.py:113-119 | `_cleanup_diff` drops an empty `nodes` entry, then an empty root report and an empty ref-node report, and changes nothing else. A report without root or ref-node part raises KeyError. |
| Comparing.NodeSelf | pyDtsTool/comparator.py:37-67 | On an acyclic tree whose nodes' children have distinct path names, `_node_diff(x, x)` is `{}`. |
| Comparing.RefsMeaning | pyDtsTool/comparator.py:100-110 | Ref nodes are paired by ref. A ref in both trees is reported by its comparison when that is non-empty. A ref in only one tree is `*present`/`*missing`. |
| Comparing.ReportSelf | pyDtsTool/comparator.py:69-111 | Comparing an acyclic tree that has a root, and whose nodes' children have distinct path names, with itself reports only the file names. |
| Comparing.Comparator.MissingNodes | pyDtsTool/comparator.py:29-35 | The paths of the first tree that the second lacks, and the reverse. It fails only when a path cannot be formed. |
| Comparing.Comparator.GetDiff | pyDtsTool/comparator.py:69-111 | On success the stored report is `ReportOf` of the two trees. Otherwise the error is the one `ReportOf` raises. |
| Comparing.NodeDiffOf | pyDtsTool/comparator.py:37-67 | The imperative `_node_diff` computes `NodeDiff`. |
| Comparing.Comparator.CleanupDiff | pyDtsTool/comparator.py:113-119 | The method leaves `Cleanup` of the report. |
| Dictify.DictifyNodeFields | dtsgen/dictify/dictifier.py:34-41 | `dictify_node` keeps each name field under its own key when not None. It keeps each directive list when not empty, and the properties name by name. |
| Dictify.DictifyNodeKids | dtsgen/dictify/dictifier.py:42-45 | `children` is present exactly when there are children, with child `k` under key `k`. |
| Dictify.DictifyNodeOk | dtsgen/dictify/dictifier.py:33-46 | A node's export succeeds exactly when every child's export does. |
| Dictify.DictifyCount | dtsgen/dictify/dictifier.py:33-46 | The export holds one dictionary per node the walk reaches. |
| Dictify.DictifyEnds | dtsgen/dictify/dictifier.py:33-46 | On an acyclic tree the export never gives up. |
| Dictify.ExportAcyclic | dtsgen/dictify/dictifier.py:19-31 | `generate` exports an acyclic tree's root and ref nodes without error. |
| Dictify.ExportLayout | dtsgen/dictify/dictifier.py:25-30 | The root, if present, is entry 0. Each ref node, in by-ref order, takes the next consecutive key. |
| Dictify.Dictifier.Generate | dtsgen/dictify/dictifier.py:19-31 | `generate` copies the file name, includes, defines and version, then writes the root and the ref nodes. An export that raises stops the loop. |
| Undictify.Populated | dictify/undictifier.py:23-28 | The header fields come from the dictionary. The defaults are version 1, no includes, no defines and the file name `generated.dts`. |
| Undictify.SigOf | dictify/undictifier.py:31-37 | A dictionary with `signature` is parsed by `make_sig_tuple`, and ValueError when nothing matches. Otherwise the tuple is its four name fields. |
| Undictify.Wrap | dictify/undictifier.py:44-49 | An absent `dtc_*` list is empty, and a single value becomes a list of one. |
| Undictify.TopOfSpec | dictify/undictifier.py:38-40 | `populate` fills the node the registry finds and creates nothing then. Otherwise it fills a new parentless node with the dictionary's name, handle, reference and raw address. The node is registered last, under a handle above all earlier ones. Creation fails only with NodeSignatureError or with the ValueError of an empty registry, and then registers nothing. |
| Undictify.Fill | dictify/undictifier.py:43-62 | `undictify_node` leaves the store `Filled` describes: directive lists, then `status` (`okay` when absent), then the properties, then the children. On success the node gains one child per child entry. What the properties become is stated by `FillProps`. |
| Undictify.PropsFromSpec | dictify/undictifier.py:50-52 | When the property loop completes, the entries have been set in turn. A name no entry lists keeps its property. A name whose last entry is not a bool reports that value, with None reporting True. A name whose last entry is `True` is present. Names stay unique. |
| Undictify.FillProps | dictify/undictifier.py:48-52 | When `undictify_node` succeeds, `status` is set first (`okay` when absent), then each listed property in turn. A status the list does not name reports the status value when that is not a bool. Every other unlisted name keeps its property. |
| Undictify.FillKids | dictify/undictifier.py:53-62 | Every child entry gets a new child of the node, appended in order, never an existing one. |
| Undictify.HeaderRoundTrip | dtsgen/dictify/dictifier.py:19-24 | The header `populate` writes from an export is the exported tree's header. |
| Undictify.DirectivesRoundTrip | dictify/undictifier.py:44-46 | A directive list the exporter writes (left out when empty) is the list `undictify_node` stores. |
| Undictify.FillExported | dictify/undictifier.py:43-62 | A node exported by `generate` and filled back keeps its three directive lists and gets one new child per exported child. |
| Undictify.UnDictifier.Populate | dictify/undictifier.py:22-41 | The method sets the header and then runs the node loop, as `NodesFrom` describes. |
| Undictify.UnDictifier.UndictifyNode | dictify/undictifier.py:43-62 | The method leaves the store `Fill` describes, whose properties `FillProps` characterises. |
| TreeGraphs.LabelRepeatsName | pyDtsTool/graph/tree_graph.py:10-12 | A named node without an address is labelled by its name. A node with an address is labelled by its name, `@` and its name again, and never by the address. |
| TreeGraphs.Label | pyDtsTool/graph/tree_graph.py:10-12 | A node's label starts with its name. A node without a name raises TypeError, and only such a node. |
| TreeGraphs.SubtreeLines | pyDtsTool/graph/tree_graph.py:9-21 | Every node of a subtree other than its top starts its own line: the outline has one line break fewer than the subtree has nodes. |
| TreeGraphs.TreeGraphLines | pyDtsTool/graph/tree_graph.py:24-36 | The outline has one line break for the root's line and one for each node below the root. |
| TreeGraphs.BranchShape | pyDtsTool/graph/tree_graph.py:13-20 | Each nested child's line is a line break, the prefix, a tab, and `└` for the last child or `├` for the others. The prefix grows by a tab and a space or by a tab and `│`. |
| TreeGraphs.RootBranchShape | pyDtsTool/graph/tree_graph.py:28-35 | Each root child's entry is `└` for the last and `├` for the others, then its outline, then a line break. Descendants are drawn with the prefix `│` unless it is the last child. |
| TreeGraphs.TreeGraphShape | pyDtsTool/graph/tree_graph.py:26-36 | The outline starts with `/` and a line break. With root children it ends with a line break. |
| TreeGraphs.TreeGraphNeedsRoot | pyDtsTool/graph/tree_graph.py:25 | A tree without `/` in its by-name index has no outline (KeyError). |
| TreeGraphs.TreeGraphEnds | pyDtsTool/graph/tree_graph.py:24-36 | On an acyclic tree, `treegraph` never runs out of steps. |

## Left out

- `Properties.NewProperty`: a list is accepted only when all its elements have the first element's type. A mixed list raises TypeError, while the source dispatches on the first element alone and stores the list as given. `Nodes.SetProperty` and `Nodes.ExtendPropertyList` rebuild the property through the factory, so a type-matching mixed list fails in the model where the source assigns `property_value`. `parse_property` can produce such lists (`"a", <1 2>`). `NewPropertyOfPropertyValue`, `PropertyValueInjective`, `SetPropertySpec`, `ExtendList` and `ExtendPromotes` depend on homogeneous lists. In the same way, a list of bools counts as a type match for an int-list property, because Python's `isinstance(True, int)` holds (pyDtsTool/node_properties.py:160-163). The source then assigns it in place (pyDtsTool/node.py:171-172), while the model's factory refuses bool lists, so the model raises TypeError and keeps the old value. Tuples hold text cells only, while `new_node_property` accepts any tuple (pyDtsTool/node_properties.py:229-230). A tuple with cells of another type is not modelled.
- DeviceTrees.DeviceTree.SetNodeProperty: inherits the two gaps of `Nodes.SetProperty` described under `Properties.NewProperty`: a mixed list, and a bool list on an int-list property. In both cases the source stores the value, while the model reports TypeError.
- Text.IsWord: `\w` is the ASCII letters, digits and `_`, while Python 3's `\w` on text is Unicode. This affects the signature recognisers, the scanner's signature class (`Scanner.IsSigChar`), the macro element of the lexer and the importer's `IsTagChar`/`IsHeadChar`.
- ByHandle.MergeByHandle: the registry is `Without(entries, dead)` even when the pass fails. In the source, a StopIteration or an AttributeError on a dead slot never reaches the rebuild at dtsgen/device_tree.py:149, so None entries stay in `_all_nodes`.
- Registry.Depth: every walk (path, print, dictify, diff, outline) is bounded by one more than the number of nodes. `Diverges` stands for the RecursionError or endless loop of the source on a cyclic tree, and for the endless `extract_nodes` loop.
- Trees.JoinHeap: property values are copied. After `join` or `extend_property_list` the source shares the same list objects between nodes, so later in-place edits are seen by both; the model does not capture this aliasing. The shared mutable default `handles=[]` is not modelled either: every node has its own label list.
- Dictify.FirstLabel: the dtsgen node class is not part of this model. Its single `handle` is taken to be the node's first label.
- DictMerge.Repr: `repr` of a string always uses single quotes and no escapes. Python picks the quote character and escapes special characters.
- Comparing.Comparator.GetDiff: on the error path the model does not say how much of `self.diff` was filled in before the exception.
- Importing.DtImporter.ExtractNodes: any top-level `};`, where the source loops for ever, ends the model with `Diverges`.
- Importing.DtImporter.Build: the importer calls `make_sig_tuple` without importing it. The model uses the label-list `make_sig_tuple` and the five-argument `new_node` of pyDtsTool/device_tree.py:132-142.
- Importing.DtImporter: as written, importer/importer.py cannot be imported. Line 5 takes `merge_dict` from its `parsing` module, which does not define it, so loading the module raises ImportError. The model takes `merge_dict` from importer/building.py:4-21, which is the same as pyDtsTool's. The importer also builds a legacy `device_tree.device_tree.DeviceTree` (importer/importer.py:4, :23). That class has no `gcc_include`, no `gcc_define` and no `get_node_from_tuple`, and its `new_node` takes four arguments (device_tree/device_tree.py:22-30). The model runs the importer on the pyDtsTool tree instead. That tree has these attributes, the five-argument `new_node`, and the current node constructor, which parses a hex address and adds no default `status`. As a consequence, `Importing.NoReuse` (a child whose address parsed as a number is never reused) holds for that constructor only. With the legacy node, which keeps the address as text, such a child would be reused when the texts agree.
- Undictify.UnDictifier.Populate: the model is built on the dtsgen tree shape (single handle, legacy constructor, five-argument `new_node`). `gcc_include` is taken as a list. For a value that is not a list, dictify/undictifier.py:26 reads `gcc_include` on the UnDictifier, which has only `dt` and `data`, so `populate` raises AttributeError. That error path is not modelled.
- Undictify.Fill: property values are the typed values of the model. YAML scalars such as a numeric address, a `None` in a directive list, or a value of another Python type are not modelled.
- Importing.DtImporter.Parse: the check after `remove_comments` (importer/importer.py:70-71) can never fire, because the same list object is returned, so it is not modelled.
- The `DtImporter` constructor (reading the file and stripping line ends with `rstrip`) and `export`, `Dictifier.to_yaml`, `UnDictifier.from_yaml`, `Comparator.print_output`, `_props_to_str` and `_g_tuples_to_str` are file and YAML I/O and are not modelled. So is the `print(e)` before each `collect_subnodes` re-raises a TypeError (pyDtsTool/importer/parsing.py:111-113, importer/parsing.py:108-110). The lines reach the model already in memory.
- `DeviceTree.copy` is not modelled; no modelled operation calls it.
- The CLI (`pydts_cli.py`), the debugging drivers and the graph-library wrappers are not part of this model.
- Python regular expressions are modelled as explicit recognisers of the patterns the code uses, not as a general regex engine.
- Comparing.Comparator.MissingNodes: `missing_nodes` returns sets here. The source returns lists in the order of `list(set(...))`, which Python does not fix.
- Integers are unbounded, like Python's.
