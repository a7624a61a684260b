# berrymill appliance descriptions, in Dafny

berrymill builds system images with kiwi. This project models the parts of
it that are pure logic and checks them with the Dafny verifier. None of it
is ever run.

- **Merge engine.** `ApplianceDescription` applies a derived kiwi appliance
  description (an XML document) to the description it inherits from. The
  derived description contains the policy elements `add`, `remove`, `merge`,
  `replace`, `remove_any` and `set`. Each one edits the inherited tree in
  place.
- **Loader.** It follows a chain of `inherit` links and folds the chain into
  one description.
- **Small helpers:**
  - the kiwi `--add-repo` argument string;
  - the relative argument-file path;
  - the parsed `mount` table, the mount bookkeeping and the loop-device
    names;
  - the plugin registry;
  - the `dir://` / `file://` path conversion of the kernel-composer
    workflow.

Modules, one per file:

- `Wrappers`: Option and Result.
- `Text`: the string methods the code uses: `split`, `join`, `strip`,
  `startswith`, `replace` and `os.path.basename`.
- `Xml`: an lxml tree as an arena of cells.
  - Node 0 is the root, and a child's id is larger than its parent's.
  - `Detach` models `parent.remove(node)`.
  - `Graft` models `append` of a node from the other document. The node
    moves, so it leaves its old place.
- `Queries`: `find_all`, `find_any`, `get_parent`, `get_xpath`, `get_last`
  and `get_next`.
- `Policy` holds the two documents: `base` is `p_dom` and `derived` is
  `s_dom`. It also holds the exceptions, which are modelled as the `Failure`
  values an operation returns.
- `AddPolicy`, `RemovePolicy`, `MergePolicy`, `ReplacePolicy`,
  `RemoveAnyPolicy` and `SetPolicy`: one specification per policy, with the
  lemmas about it.
- `Description`: the class `ApplianceDescription`. Its methods hold the
  loops of the Python methods and are proved equal to those
  specifications. The module also holds `_resolve` and `_apply`.
- `Inheritance`: `UqList` and `Loader`.
- `KiwiArgs`, `Mounts`, `Plugins`, `KkzPaths`: the helpers listed above.

The engine keeps lxml's move semantics for the element structure (tails,
the text after an element, are not modelled). Appending a node from `s_dom`
moves it out of `s_dom`. Appending a node already in `p_dom` unlinks it from
its old parent. That is why several matches give different results in
`_add`, `_merge` and `_replace`.

Internal nodes are modelled as well. A comment is a cell whose tag is
`Comment`.

The module-level `frame` global, which the decorator `frame` sets, is
modelled as an explicit parameter, `"remove"` or `"merge"`.

The YAML loader and the XPath engine of `_set` are function parameters.
The file system is a map from path to parsed document, or to nothing for a
file that cannot be read.

## Model

| member | source | states |
|---|---|---|
| Text.Split | src/berry_mill/mountpoint.py:31 | `s.split(c)` always yields at least one piece |
| Text.SplitJoin | src/berry_mill/imgdescr/descr.py:168 | `Join` (`c.join(xs)`): splitting a `c.join(xs)` at `c` gives back `xs` when no piece contains `c` |
| Text.SplitPieces | src/berry_mill/mountpoint.py:31 | no piece of a split contains the separator |
| Text.JoinInjective | src/berry_mill/imgdescr/descr.py:168 | two lists of separator-free pieces join to the same text iff they are equal |
| Text.SplitFree | src/berry_mill/kiwiapp.py:104 | a text without the separator splits into itself alone |
| Text.SplitAfterPiece | src/berry_mill/kiwiapp.py:104 | splitting `a + sep + t` gives `a` followed by the split of `t` |
| Text.TrimLeft | src/berry_mill/imgdescr/descr.py:233 | the result is a suffix of the input that does not start with white space, and every character removed before it is white space |
| Text.TrimRight | src/berry_mill/imgdescr/descr.py:233 | the result is a prefix of the input that does not end with white space, and every character removed after it is white space |
| Text.Strip | src/berry_mill/imgdescr/descr.py:233 | `strip()` yields a slice of the input that neither starts nor ends with white space, and every character removed on either side is white space |
| Text.StripCut | src/berry_mill/imgdescr/descr.py:233 | the right trim of the left trim is the slice between the removed white space on the left and on the right |
| Text.TrimLeftBlank | src/berry_mill/imgdescr/descr.py:233 | the left trim is empty iff every character is white space |
| Text.TrimRightBlank | src/berry_mill/imgdescr/descr.py:233 | the right trim is empty iff every character is white space |
| Text.StripBlank | src/berry_mill/plugin.py:51 | `strip()` is empty iff every character is white space |
| Text.StripKeeps | src/berry_mill/mountpoint.py:30 | a text not starting or ending with white space is its own `strip()` |
| Text.ReplaceAllSkips | src/berry_mill/plugins/kernkompozzer/kkzflow.py:41 | `ReplaceAll` (`s.replace(pat, rep)`): `replace` leaves a prefix alone in which the pattern cannot start |
| Text.Basename | src/berry_mill/kiwiapp.py:92 | `basename` is a slash-free suffix of the path, preceded by `/` when shorter than it |
| Text.BasenameAfterSlash | src/berry_mill/mountpoint.py:285 | the basename of `a/t` with a slash-free `t` is `t` |
| Text.BasenameEmpty | src/berry_mill/kiwiapp.py:92 | the basename is empty iff the path is empty or ends with `/` |
| Xml.Without | src/berry_mill/imgdescr/descr.py:172 | the child list without the removed nodes: the members are exactly those not removed, and the order and distinctness are kept |
| Xml.WithoutTwice | src/berry_mill/imgdescr/descr.py:227 | removing two sets one after the other removes their union |
| Xml.WithoutFirst | src/berry_mill/imgdescr/descr.py:172 | removing the first of distinct children leaves the rest |
| Xml.WithoutNone | src/berry_mill/imgdescr/descr.py:172 | removing absent nodes leaves the list as it is |
| Xml.AddNode | src/berry_mill/imgdescr/descr.py:144 | a new cell becomes the last child of an element; no other cell changes and the tree stays well formed |
| Xml.Detach | src/berry_mill/imgdescr/descr.py:172 | `parent.remove(t)`: `t` loses its parent, the parent loses `t`, nothing else changes |
| Xml.Attach | src/berry_mill/imgdescr/descr.py:213 | appending a detached node makes it the last child of the element |
| Xml.MoveWithin | src/berry_mill/imgdescr/descr.py:213 | `p.append(x)` for a node of the same tree: it is unlinked from its old parent and becomes the last child of `p` |
| Xml.SetAttrs | src/berry_mill/imgdescr/descr.py:246-247 | `set(k, v)` for every pair: those keys take the new values, other attributes and all other cells are kept |
| Xml.LiveAfterDetach | src/berry_mill/imgdescr/descr.py:172 | after a remove, a node is still in the tree iff it was before and is neither the removed node nor under it |
| Xml.Graft | src/berry_mill/imgdescr/descr.py:144 | moving `c` from the other document appends a copy of it as the last child of `p`; old cells only gain children at `p` |
| Xml.GraftKids | src/berry_mill/imgdescr/descr.py:144 | the children of a moved node follow it, one per child |
| Xml.GraftTree | src/berry_mill/imgdescr/descr.py:144 | the moved subtree arrives intact: same tags, attributes, text and children, recursively |
| Xml.GraftBelow | src/berry_mill/imgdescr/descr.py:144 | every new node of a move lies under the moved node |
| Xml.GraftOrigin | src/berry_mill/imgdescr/descr.py:144 | every new node is a copy of the moved node or of a node under it |
| Xml.LiveAfterGraft | src/berry_mill/imgdescr/descr.py:199 | old nodes keep their place in the tree; new nodes are in the tree iff the target is |
| Xml.RemoveAll | src/berry_mill/imgdescr/descr.py:226-227 | removing a set of nodes from their parents only cuts those links |
| Xml.RemoveAllNone | src/berry_mill/imgdescr/descr.py:226 | removing nothing changes nothing |
| Xml.RemoveAllStep | src/berry_mill/imgdescr/descr.py:227 | removing one more node is one more `parent.remove` |
| Xml.LiveAfterRemoveAll | src/berry_mill/imgdescr/descr.py:226-227 | afterwards a node is in the tree iff it was before, is not removed and is under no removed node |
| Xml.CutTrans | src/berry_mill/imgdescr/descr.py:172 | cutting links twice is cutting links |
| Xml.LiveByUps | src/berry_mill/imgdescr/descr.py:211-212 | when exactly the nodes of a set lose their parent, a node stays in the tree iff it was in it, is not in the set and is under none of the set |
| Queries.DescMem | src/berry_mill/imgdescr/descr.py:103 | the nodes `iter()` yields after `e` are exactly the nodes under `e` |
| Queries.FindAll | src/berry_mill/imgdescr/descr.py:78-84 | `find_all` yields nodes of the document |
| Queries.FindAllOrder | src/berry_mill/imgdescr/descr.py:78-84 | `find_all` lists the matching strict descendants in document (pre-)order |
| Queries.FindAllMem | src/berry_mill/imgdescr/descr.py:78-84 | a node is listed iff it lies strictly under `e`, has the tag, and has exactly the attributes when a non-empty filter is given; `e` itself never is |
| Queries.AncestorsChain | src/berry_mill/imgdescr/descr.py:80-83 | two nodes at or above one node lie one above the other, since each node has one parent |
| Queries.SiblingsApart | src/berry_mill/imgdescr/descr.py:80-83 | no node lies at or under two different children of one element |
| Queries.DescFromDistinct | src/berry_mill/imgdescr/descr.py:103 | the pre-order walk meets every node at most once |
| Queries.MatchingDistinct | src/berry_mill/imgdescr/descr.py:81 | filtering a list without repeats gives a list without repeats |
| Queries.FindAllDistinct | src/berry_mill/imgdescr/descr.py:78-84 | `find_all` lists every node at most once |
| Queries.FindAllTagged | src/berry_mill/imgdescr/descr.py:81 | everything listed carries the searched tag |
| Queries.MatchingMem | src/berry_mill/imgdescr/descr.py:81 | the filter keeps exactly the entries with the tag and, when a filter is given, equal attributes |
| Queries.MatchingConcat | src/berry_mill/imgdescr/descr.py:80-83 | filtering distributes over concatenation |
| Queries.FindAny | src/berry_mill/imgdescr/descr.py:87-99 | `find_any` yields exactly the same-tag elements under `e` that carry every searched pair |
| Queries.AnyMatchesMem | src/berry_mill/imgdescr/descr.py:91-98 | `AnyMatches` (`find_any`): a node is found iff it is under `e`, has the tag and its attributes contain the searched ones |
| Queries.AnyMatchesWider | src/berry_mill/imgdescr/descr.py:93-96 | fewer searched attributes match a superset of nodes |
| Queries.AnyMatchesIn | src/berry_mill/imgdescr/descr.py:91 | everything found lies under `e` |
| Queries.GetParent | src/berry_mill/imgdescr/descr.py:102-106 | `get_parent(tree, e)` is the parent of `e` when `e` lies under `tree`, else `None` |
| Queries.ParentListed | src/berry_mill/imgdescr/descr.py:103-106 | the parent of a node under `tree` is met by `tree.iter()` and lists the node |
| Queries.PathTags | src/berry_mill/imgdescr/descr.py:110-114 | the path ends with the tag of `e` |
| Queries.GetXPath | src/berry_mill/imgdescr/descr.py:109-115 | the loop climbs the parents and yields `/` followed by the tags from the top down, joined by `/` |
| Queries.PathTagsFrame | src/berry_mill/imgdescr/descr.py:112-114 | a path depends only on the parent links and tags up to `e` |
| Queries.PathTagsRoot | src/berry_mill/imgdescr/descr.py:112-114 | the path of a node in the tree starts at the root |
| Queries.PathTagsFree | src/berry_mill/imgdescr/descr.py:115 | with slash-free names, no path segment holds `/` |
| Queries.XPathSplit | src/berry_mill/imgdescr/descr.py:109-115 | `XPathOf` (`get_xpath`): the path splits at `/` into an empty first segment and the tags from the root down to the element |
| Queries.Drop | src/berry_mill/imgdescr/descr.py:168 | dropping the marker keeps exactly the other segments |
| Queries.PathMatch | src/berry_mill/imgdescr/descr.py:168 | `StripFrame` and `XPathOf`: comparing the stripped path text equals comparing the segment lists with the marker dropped |
| Queries.LeavesMem | src/berry_mill/imgdescr/descr.py:120-124 | the leaves of a list are exactly its childless members |
| Queries.LeavesConcat | src/berry_mill/imgdescr/descr.py:121-122 | taking leaves distributes over concatenation |
| Queries.GetLastOrder | src/berry_mill/imgdescr/descr.py:118-126 | `get_last` gives the childless descendants in document order, or `[e]` for a childless `e` |
| Queries.GetLastMem | src/berry_mill/imgdescr/descr.py:118-126 | `GetLast` (`get_last`): membership of `get_last`: `e` alone when childless, else exactly the childless nodes under it |
| Queries.GetLastIn | src/berry_mill/imgdescr/descr.py:118-126 | `get_last` yields nodes of the document |
| Queries.FirstElement | src/berry_mill/imgdescr/descr.py:129-133 | the first non-comment child, or none exactly when every child is a comment |
| Queries.GetNext | src/berry_mill/imgdescr/descr.py:129-133 | the loop of `get_next` returns the first child that is not a comment |
| Queries.FirstElementIsFirst | src/berry_mill/imgdescr/descr.py:130-133 | every child before the one chosen is a comment |
| Policy.MoveKid | src/berry_mill/imgdescr/descr.py:144 | `t.append(sc)` from the derived document: `sc` arrives intact as the last child of `t` and leaves the derived document |
| Policy.ExtendsTrans | src/berry_mill/imgdescr/descr.py:143-144 | growing the inherited tree twice is growing it |
| Policy.GraftExtends | src/berry_mill/imgdescr/descr.py:144 | a move only adds to the inherited tree |
| Policy.KeptAfterDetach | src/berry_mill/imgdescr/descr.py:144 | the derived document keeps its cells' contents when a node leaves it |
| Policy.KeptTrans | src/berry_mill/imgdescr/descr.py:143-144 | keeping contents composes |
| Policy.MoveKidLinks | src/berry_mill/imgdescr/descr.py:144 | in the derived document only the moved child loses its parent |
| Policy.NextKids | src/berry_mill/imgdescr/descr.py:143 | after a child is taken, the snapshot of the remaining children still lists children |
| AddPolicy.MoveKids | src/berry_mill/imgdescr/descr.py:143-144 | moving the children of `c` only grows the target `t` and touches no other old cell |
| AddPolicy.MoveKidsLinks | src/berry_mill/imgdescr/descr.py:143-144 | only the moved children lose their parent in the derived document |
| AddPolicy.MoveKidsEmpties | src/berry_mill/imgdescr/descr.py:143-144 | moving all children of `c` leaves it without children |
| AddPolicy.MoveKidsTrees | src/berry_mill/imgdescr/descr.py:143-144 | the children arrive intact and in order after the target's own children |
| AddPolicy.MoveKidsStep | src/berry_mill/imgdescr/descr.py:143-144 | moving one child and then the rest appends the trees of all of them, in order |
| AddPolicy.GainsCons | src/berry_mill/imgdescr/descr.py:144 | a first appended tree equal to that of `k`, followed by trees equal to those of `ks`, is the trees of `[k] + ks` appended |
| AddPolicy.OtherKidsTrees | src/berry_mill/imgdescr/descr.py:144 | detaching a child of `c` leaves the trees of the other children of `c` as they were |
| AddPolicy.MoveToExact | src/berry_mill/imgdescr/descr.py:141-144 | the first loop of `_add` only grows the inherited tree |
| AddPolicy.MoveToExactLinks | src/berry_mill/imgdescr/descr.py:141-144 | only children of `c` lose their parent; `c` keeps its own |
| AddPolicy.FirstExact | src/berry_mill/imgdescr/descr.py:148-151 | the first element with exactly the attributes of `c`, or none exactly when no element has them |
| AddPolicy.Aggregate | src/berry_mill/imgdescr/descr.py:153-155 | appending `c` under the parent of `tc` only grows the inherited tree |
| AddPolicy.AddOne | src/berry_mill/imgdescr/descr.py:139-155 | one turn of `_add`: it grows the tree and binds `tc`, or fails with `UnboundLocalError` |
| AddPolicy.AddOneLinks | src/berry_mill/imgdescr/descr.py:139-155 | a turn only unlinks `c` and children of `c` in the derived document |
| AddPolicy.AggregateLinks | src/berry_mill/imgdescr/descr.py:155 | appending `c` unlinks nothing else in the derived document |
| AddPolicy.AddAll | src/berry_mill/imgdescr/descr.py:139 | the loop over the children of `e` grows the tree or fails with `UnboundLocalError` |
| AddPolicy.AddAllNext | src/berry_mill/imgdescr/descr.py:139 | a failing turn ends the loop with its error; otherwise the loop continues from the turn's state |
| AddPolicy.Add | src/berry_mill/imgdescr/descr.py:135-155 | `_add` only grows the inherited tree, or fails with `UnboundLocalError` |
| AddPolicy.FoundAgain | src/berry_mill/imgdescr/descr.py:148 | the second search still finds what the first found, once the tree only grew |
| AddPolicy.AddOneUnbound | src/berry_mill/imgdescr/descr.py:148-154 | a turn fails iff no element has the tag of `c` and `tc` was never bound |
| AddPolicy.AddAllBound | src/berry_mill/imgdescr/descr.py:139-155 | once `tc` is bound, or the first turn binds it, no turn fails |
| AddPolicy.AddFails | src/berry_mill/imgdescr/descr.py:135-155 | `_add` fails iff its first child has a tag that the inherited tree lacks |
| AddPolicy.AddAllFails | src/berry_mill/imgdescr/descr.py:139-155 | the loop fails iff its first child's tag is absent |
| AddPolicy.MoveToExactIdle | src/berry_mill/imgdescr/descr.py:143 | without children to move, the first loop changes nothing |
| AddPolicy.MoveToExactSkip | src/berry_mill/imgdescr/descr.py:142 | with no element of exactly the attributes of `c`, the first loop changes nothing |
| AddPolicy.MoveToExactFirst | src/berry_mill/imgdescr/descr.py:141-144 | the first exact match takes all the children, intact and in order; later matches get none |
| AddPolicy.MoveToExactHit | src/berry_mill/imgdescr/descr.py:141-144 | when the first listed element matches, it takes all the children |
| AddPolicy.AddOneExact | src/berry_mill/imgdescr/descr.py:139-151 | with an exact match, the turn moves the children of `c` into the first match, keeps `c` where it was and creates no aggregate |
| AddPolicy.AddOneAggregate | src/berry_mill/imgdescr/descr.py:147-155 | with no exact match, `c` is appended to the parent of the last same-tag element (or of the `tc` an earlier turn left) |
| AddPolicy.AggregatePlaces | src/berry_mill/imgdescr/descr.py:154-155 | `c` arrives intact as the new last child of that parent; no other old cell changes |
| RemovePolicy.RemoveElements | src/berry_mill/imgdescr/descr.py:175-178 | the elements branch only cuts links of the inherited tree |
| RemovePolicy.SparedCons | src/berry_mill/imgdescr/descr.py:175-178 | a node is spared by a list iff the first entry does not remove it and the rest spare it |
| RemovePolicy.SparedCut | src/berry_mill/imgdescr/descr.py:175-178 | being spared does not depend on links cut elsewhere |
| RemovePolicy.RemoveElementsLive | src/berry_mill/imgdescr/descr.py:175-178 | afterwards a node is in the tree iff it was and no listed element with the attributes is it or above it |
| RemovePolicy.LiveCutStep | src/berry_mill/imgdescr/descr.py:176-178 | the step of that proof for a matching entry |
| RemovePolicy.SparedDetach | src/berry_mill/imgdescr/descr.py:178 | being spared survives one remove |
| RemovePolicy.LiveSkipStep | src/berry_mill/imgdescr/descr.py:176-178 | the step of that proof for an entry that is skipped |
| RemovePolicy.SameAncestors | src/berry_mill/imgdescr/descr.py:178 | a node still in the tree keeps exactly its ancestors |
| RemovePolicy.OutsideStaysOut | src/berry_mill/imgdescr/descr.py:177-178 | a node whose parent `get_parent` cannot find has no part of the tree under it |
| RemovePolicy.RemoveMatching | src/berry_mill/imgdescr/descr.py:170-172 | removing the matching leaves only cuts links, or fails when a leaf has no parent |
| RemovePolicy.RemoveMatchingCuts | src/berry_mill/imgdescr/descr.py:170-172 | exactly the listed leaves with equal attributes lose their parent; tags are not compared |
| RemovePolicy.RemoveLeaves | src/berry_mill/imgdescr/descr.py:169-172 | the loop over the entry's leaves only cuts links |
| RemovePolicy.RemoveAggregates | src/berry_mill/imgdescr/descr.py:166-172 | the aggregate branch only cuts links |
| RemovePolicy.AggregatesNext | src/berry_mill/imgdescr/descr.py:166-172 | one turn of the aggregate loop: a matching target has its leaves removed, a failure ends the loop, and the loop goes on with the rest |
| RemovePolicy.RemoveEntry | src/berry_mill/imgdescr/descr.py:163-178 | one entry picks the aggregate or the elements branch by whether it has children |
| RemovePolicy.FindAllTags | src/berry_mill/imgdescr/descr.py:166 | targets carry the entry's tag and are never the root |
| RemovePolicy.RemoveEach | src/berry_mill/imgdescr/descr.py:162 | the loop over the entries only cuts links |
| RemovePolicy.Remove | src/berry_mill/imgdescr/descr.py:158-178 | `_remove` leaves the derived document alone and only cuts links of the inherited tree |
| RemovePolicy.RemoveChildless | src/berry_mill/imgdescr/descr.py:173-178 | for a childless entry, a node stays in the tree iff it was there and neither it nor an ancestor has the entry's tag and exact attributes |
| RemovePolicy.AggregatesInside | src/berry_mill/imgdescr/descr.py:166-172 | a node that loses its parent is a target, or under a target, that has the entry's exact attributes and its path with the marker dropped, and it has the attributes of a leaf of the entry |
| RemovePolicy.AggregatesInsideHit | src/berry_mill/imgdescr/descr.py:166-172 | the same bound when the first target matches: a node that loses its parent lies at or under a matching target and has the attributes of a leaf of the entry |
| RemovePolicy.LeavesInside | src/berry_mill/imgdescr/descr.py:169-172 | within one target, a node that loses its parent is the target or under it, and it has the attributes of one of the entry's leaves |
| RemovePolicy.GetLastChildless | src/berry_mill/imgdescr/descr.py:118-126 | every node `get_last` returns is childless |
| RemovePolicy.DetachLeafPruned | src/berry_mill/imgdescr/descr.py:172 | removing a childless node only removes a leaf |
| RemovePolicy.PrunedTrans | src/berry_mill/imgdescr/descr.py:169-172 | removing leaves twice is removing leaves |
| RemovePolicy.PrunedLeaf | src/berry_mill/imgdescr/descr.py:169-172 | a childless node stays childless while leaves are removed |
| RemovePolicy.PrunedParent | src/berry_mill/imgdescr/descr.py:169-172 | when a node keeps its parent, that parent keeps its own parent too |
| RemovePolicy.PrunedBelow | src/berry_mill/imgdescr/descr.py:169-172 | a node under `a` that keeps its parent is still under `a`, and `a` keeps its own parent |
| RemovePolicy.PrunedLive | src/berry_mill/imgdescr/descr.py:169-172 | after removing leaves, a node is in the tree iff it was and kept its parent |
| RemovePolicy.PathTagsPruned | src/berry_mill/imgdescr/descr.py:166-168 | removing leaves does not change the path of an element that keeps its parent |
| RemovePolicy.BelowKids | src/berry_mill/imgdescr/descr.py:118-126 | a node with something under it has children |
| RemovePolicy.RemoveMatchingPruned | src/berry_mill/imgdescr/descr.py:170-172 | the innermost loop, given childless nodes, only removes leaves |
| RemovePolicy.RemoveLeavesPruned | src/berry_mill/imgdescr/descr.py:169-172 | the loop over the entry's leaves only removes leaves |
| RemovePolicy.StillLast | src/berry_mill/imgdescr/descr.py:169-172 | a leaf under the target that keeps its parent is still returned by `get_last` for the target |
| RemovePolicy.RemoveLeavesComplete | src/berry_mill/imgdescr/descr.py:169-172 | every leaf under the target with the attributes of one of the entry's leaves loses its parent |
| RemovePolicy.SameTarget | src/berry_mill/imgdescr/descr.py:166-168 | a target that keeps its parent still matches the aggregate iff it did before the leaves were removed |
| RemovePolicy.RemoveAggregatesPruned | src/berry_mill/imgdescr/descr.py:166-172 | the aggregate branch only removes leaves |
| RemovePolicy.StillAggregate | src/berry_mill/imgdescr/descr.py:166-168 | a last node of a matching target that keeps its parent is still a last node of that target, which still matches |
| RemovePolicy.AggregatesComplete | src/berry_mill/imgdescr/descr.py:166-172 | every leaf under a matching target with the attributes of a leaf of the entry loses its parent |
| RemovePolicy.AggregateEntryRemoves | src/berry_mill/imgdescr/descr.py:166-172 | for an entry with children, every leaf under a matching target in the tree with the attributes of a leaf of the entry leaves the tree |
| RemovePolicy.AggregateEntryOnly | src/berry_mill/imgdescr/descr.py:166-172 | for an entry with children, a node that leaves the tree loses its parent and has no children, lies at or under a matching target, and has the attributes of a leaf of the entry |
| MergePolicy.MergeKids | src/berry_mill/imgdescr/descr.py:192-199 | the inner loops only grow the target `t` |
| MergePolicy.MergeTargets | src/berry_mill/imgdescr/descr.py:190-199 | the loop over the targets only grows the inherited tree |
| MergePolicy.Merge | src/berry_mill/imgdescr/descr.py:181-199 | `_merge` only adds to the inherited tree: no existing child is removed or altered |
| MergePolicy.MergeTargetsNext | src/berry_mill/imgdescr/descr.py:190-199 | one turn of the loop over the targets: a target on the path takes the children of `S`, and the loop goes on with the rest |
| MergePolicy.MergeIsTargets | src/berry_mill/imgdescr/descr.py:185-199 | with a first element `S`, `_merge` is the loop over the elements `find_all` gives for its tag and attributes |
| MergePolicy.OnlyTargetsGrow | src/berry_mill/imgdescr/descr.py:190-191 | only targets whose path equals the expected path gain children |
| MergePolicy.MergeOnlyMatched | src/berry_mill/imgdescr/descr.py:185-199 | a node gains children only if it is in the tree, matches `S`'s tag and attributes, and has `S`'s path without the "merge" segments |
| MergePolicy.MergeKidsCover | src/berry_mill/imgdescr/descr.py:192-199 | afterwards the target has a child with the tag of every child of `S` |
| MergePolicy.MergeKidsNew | src/berry_mill/imgdescr/descr.py:194-199 | each appended child brings a tag that no earlier child of the target had |
| MergePolicy.MovedTag | src/berry_mill/imgdescr/descr.py:199 | an appended child's tag is then among the target's children |
| MergePolicy.MoveNewTag | src/berry_mill/imgdescr/descr.py:198-199 | appending a child with a new tag keeps the tags new |
| MergePolicy.CoverStep | src/berry_mill/imgdescr/descr.py:192 | moving children of `S` does not change the tags of the rest, so a target holding the first tag and the later ones holds them all |
| MergePolicy.KidTagStays | src/berry_mill/imgdescr/descr.py:194-197 | a child tag of the target stays while the tree grows |
| MergePolicy.NewTagsTrans | src/berry_mill/imgdescr/descr.py:192-199 | the new-tags property composes across turns |
| MergePolicy.Appended | src/berry_mill/imgdescr/descr.py:194-199 | the children of `S` that one target's turn appends are among the children `S` had |
| MergePolicy.MergeKidsTrees | src/berry_mill/imgdescr/descr.py:192-199 | one target's turn appends, after the children it had, exactly the trees of the appended children of `S`, in order |
| MergePolicy.MergeKidsTreesMove | src/berry_mill/imgdescr/descr.py:197-199 | the same when the first child of `S` is moved |
| MergePolicy.MergeKidsMoved | src/berry_mill/imgdescr/descr.py:199 | moving one child and appending the trees of the rest appends the trees of all of them |
| MergePolicy.AppendedMem | src/berry_mill/imgdescr/descr.py:194-199 | a child of `S` is appended iff no child of the target had its tag beforehand and no earlier child of `S` has it |
| MergePolicy.AppendedMemSkip | src/berry_mill/imgdescr/descr.py:194-197 | the same past a child whose tag the target already has |
| MergePolicy.AppendedMemMove | src/berry_mill/imgdescr/descr.py:197-199 | the same past a child that is moved |
| MergePolicy.MoveKidTags | src/berry_mill/imgdescr/descr.py:199 | after a move, the target has a child with a tag iff it had one before or the moved child has it |
| MergePolicy.TagsBefore | src/berry_mill/imgdescr/descr.py:194-199 | when one step adds only the tag of the first child, the freshness of a later child is the same before and after |
| MergePolicy.TagsBeforeSkip | src/berry_mill/imgdescr/descr.py:194-197 | the same when the step changes nothing |
| MergePolicy.AppendedSkip | src/berry_mill/imgdescr/descr.py:194-197 | a first child whose tag the target already has is passed over: the turn appends what it appends for the rest |
| MergePolicy.AppendedMove | src/berry_mill/imgdescr/descr.py:197-199 | a first child with a new tag is appended first, followed by what the rest of the turn appends after the move |
| MergePolicy.AppendedMemAfter | src/berry_mill/imgdescr/descr.py:197-199 | after the first child is moved, a later child is appended iff it was fresh in the original turn |
| MergePolicy.KidsAllIn | src/berry_mill/imgdescr/descr.py:192 | the children of `S` are nodes of its document |
| MergePolicy.MergeKidsLeave | src/berry_mill/imgdescr/descr.py:199 | during one target's turn, children of `S` only leave it |
| MergePolicy.MergeTargetsLeave | src/berry_mill/imgdescr/descr.py:190-199 | over all targets, children of `S` only leave it |
| MergePolicy.PathStays | src/berry_mill/imgdescr/descr.py:190-191 | growing the tree does not change the path of an existing element |
| MergePolicy.TargetsRest | src/berry_mill/imgdescr/descr.py:190-191 | after one turn, the remaining targets are still elements with the same paths |
| MergePolicy.MergeTargetsHead | src/berry_mill/imgdescr/descr.py:190-199 | when the first target has the expected path, it has a child with the tag of every child `S` keeps |
| MergePolicy.MergeTargetsCover | src/berry_mill/imgdescr/descr.py:190-199 | every target with the expected path ends with a child with the tag of every child `S` still has |
| MergePolicy.MergeCovers | src/berry_mill/imgdescr/descr.py:181-199 | after `_merge`, every element in the tree with the tag, attributes and path of `S` (marker dropped) has a child with the tag of every child `S` still has |
| ReplacePolicy.Step | src/berry_mill/imgdescr/descr.py:211-213 | one match is taken out and `S` appended to its parent; the old nodes keep their tags |
| ReplacePolicy.DetachKept | src/berry_mill/imgdescr/descr.py:212 | a remove keeps the old nodes and their contents |
| ReplacePolicy.GraftKept | src/berry_mill/imgdescr/descr.py:213 | the first append keeps the old nodes |
| ReplacePolicy.MoveKept | src/berry_mill/imgdescr/descr.py:213 | a later append, which moves `S`, keeps the old nodes |
| ReplacePolicy.OldKeptTrans | src/berry_mill/imgdescr/descr.py:209-213 | keeping old nodes composes |
| ReplacePolicy.ReplaceFold | src/berry_mill/imgdescr/descr.py:209-213 | the loop over the matches keeps the old nodes, or fails on a node without a parent |
| ReplacePolicy.Replace | src/berry_mill/imgdescr/descr.py:201-213 | `_replace` keeps the old nodes and the derived cells' contents; ReplaceOk proves that it always succeeds |
| ReplacePolicy.FoldOk | src/berry_mill/imgdescr/descr.py:209-213 | the loop cannot fail on distinct matches that all have a parent, since a step cuts only its own match's link |
| ReplacePolicy.ReplaceOk | src/berry_mill/imgdescr/descr.py:205-213 | `_replace` never raises: every element `find_all` lists has a parent, and each is listed once |
| ReplacePolicy.LastMatch | src/berry_mill/imgdescr/descr.py:209-210 | the last same-attribute entry, or none exactly when no entry has the attributes |
| ReplacePolicy.LastMatchKept | src/berry_mill/imgdescr/descr.py:209-210 | the last match depends only on the kept nodes |
| ReplacePolicy.FoldDetaches | src/berry_mill/imgdescr/descr.py:210-212 | every match is taken out of its parent |
| ReplacePolicy.ReplaceRemoves | src/berry_mill/imgdescr/descr.py:205-213 | nothing enters the tree, and every element with the tag and exact attributes of `S` has left it |
| ReplacePolicy.FoldIdle | src/berry_mill/imgdescr/descr.py:210 | with no match left, the loop changes nothing |
| ReplacePolicy.FoldPlaces | src/berry_mill/imgdescr/descr.py:209-213 | the loop leaves `S` intact as the last child of the last match's parent |
| ReplacePolicy.PlacedSkip | src/berry_mill/imgdescr/descr.py:210 | a non-matching entry changes no placement |
| ReplacePolicy.FoldPlacesHit | src/berry_mill/imgdescr/descr.py:210-213 | the placement after a matching first entry |
| ReplacePolicy.PlacedHit | src/berry_mill/imgdescr/descr.py:211-213 | a later match moves `S` again, otherwise the step's placement stands |
| ReplacePolicy.StepPlaces | src/berry_mill/imgdescr/descr.py:211-213 | one step puts `S`, intact, last under the match's parent |
| ReplacePolicy.FirstPlaces | src/berry_mill/imgdescr/descr.py:213 | the first append brings `S` over from the derived document intact |
| ReplacePolicy.AgainPlaces | src/berry_mill/imgdescr/descr.py:213 | a later append moves the placed copy within the tree intact |
| ReplacePolicy.ReplacePlaces | src/berry_mill/imgdescr/descr.py:205-213 | `S` ends as the last child of the parent of the last match in document order |
| ReplacePolicy.StepUps | src/berry_mill/imgdescr/descr.py:211-213 | one replacement step cuts the parent link of the target and of no other old node |
| ReplacePolicy.FoldUps | src/berry_mill/imgdescr/descr.py:209-213 | the loop cuts the parent links of exactly the targets with the exact attributes of `S` |
| ReplacePolicy.ReplaceUps | src/berry_mill/imgdescr/descr.py:205-213 | `_replace` cuts exactly the parent links of the elements in the tree with the tag and exact attributes of `S` |
| ReplacePolicy.ReplaceLive | src/berry_mill/imgdescr/descr.py:205-213 | an old node stays in the tree iff it was in it, is not a replaced element and is under none |
| ReplacePolicy.LiveByReplaced | src/berry_mill/imgdescr/descr.py:211-212 | once exactly the replaced elements lose their parent, a node is in the tree iff it was, is not replaced and lies under no replaced element |
| RemoveAnyPolicy.RemoveAny | src/berry_mill/imgdescr/descr.py:215-227 | `_remove_any` leaves the derived document alone and only cuts links of the inherited tree |
| RemoveAnyPolicy.RemoveAnyLeavesNone | src/berry_mill/imgdescr/descr.py:222-227 | afterwards no element in the tree has `S`'s tag and carries all of `S`'s attributes, and a node stays iff it was there and is neither a match nor under one |
| SetPolicy.Lines | src/berry_mill/imgdescr/descr.py:240 | the filtered lines are all non-empty |
| SetPolicy.SetEach | src/berry_mill/imgdescr/descr.py:245-247 | setting the pairs on every hit keeps the cells, or fails on a hit that is not an element |
| SetPolicy.Set | src/berry_mill/imgdescr/descr.py:229-247 | `_set` changes only attributes of the inherited tree |
| SetPolicy.SetEachFails | src/berry_mill/imgdescr/descr.py:245-247 | it fails iff there is a pair to set and some hit is not an element |
| SetPolicy.SetEachPairs | src/berry_mill/imgdescr/descr.py:245-247 | a selected element gets every pair and keeps its other attributes; every other cell is unchanged |
| SetPolicy.SetUnchanged | src/berry_mill/imgdescr/descr.py:233-235 | a missing `xpath` attribute, a blank text or a YAML scanner error leaves both documents unchanged |
| SetPolicy.SetNoText | src/berry_mill/imgdescr/descr.py:233 | `_set` fails on `e.text.strip()` iff the element has no text |
| SetPolicy.YamlLines | src/berry_mill/imgdescr/descr.py:240 | `YamlSource`: the YAML text is exactly the non-empty stripped lines, in order |
| SetPolicy.LinesFree | src/berry_mill/imgdescr/descr.py:240 | the stripped lines hold no line break |
| SetPolicy.StripInside | src/berry_mill/imgdescr/descr.py:240 | stripping keeps only characters of the line |
| Description.DetachAll | src/berry_mill/imgdescr/descr.py:226-227 | removing the found set one by one in any order gives the set removal |
| Description.ReplaceIn | src/berry_mill/imgdescr/descr.py:209-213 | the loop of `_replace` computes its specification |
| Description.MergeInto | src/berry_mill/imgdescr/descr.py:192-199 | the inner loops of `_merge` compute their specification |
| Description.NoKidTagged | src/berry_mill/imgdescr/descr.py:193-197 | `is_new` holds iff no child of the target has the tag |
| Description.MergeAll | src/berry_mill/imgdescr/descr.py:190-199 | the loop over the targets computes its specification |
| Description.RemoveMatchingIn | src/berry_mill/imgdescr/descr.py:170-172 | the innermost loop of `_remove` computes its specification |
| Description.RemoveLeavesIn | src/berry_mill/imgdescr/descr.py:169-172 | the loop over the entry's leaves computes its specification |
| Description.RemoveAggregatesIn | src/berry_mill/imgdescr/descr.py:166-172 | the aggregate branch computes its specification |
| Description.RemoveElementsIn | src/berry_mill/imgdescr/descr.py:175-178 | the elements branch computes its specification |
| Description.RemoveEntryIn | src/berry_mill/imgdescr/descr.py:163-178 | one entry of `_remove` computes its specification |
| Description.MoveKidsIn | src/berry_mill/imgdescr/descr.py:143-144 | `for mv_c in c: tc.append(mv_c)` computes its specification |
| Description.MoveToExactIn | src/berry_mill/imgdescr/descr.py:141-144 | the first loop of `_add` computes its specification |
| Description.SearchExact | src/berry_mill/imgdescr/descr.py:147-151 | `is_new` holds iff no element has exactly the attributes; `tc` is the match, else the last listed element, else its old value |
| Description.AddOneIn | src/berry_mill/imgdescr/descr.py:139-155 | one turn of `_add` computes its specification |
| Description.AddAllIn | src/berry_mill/imgdescr/descr.py:139-155 | the loop of `_add` computes its specification |
| Description.WithinStep | src/berry_mill/imgdescr/descr.py:246-247 | setting one more key extends the done part |
| Description.SetPairs | src/berry_mill/imgdescr/descr.py:246-247 | setting every pair gives the old attributes overridden by the pairs |
| Description.SetEachIn | src/berry_mill/imgdescr/descr.py:245-247 | the loop of `_set` computes its specification |
| Description.ElementKids | src/berry_mill/imgdescr/descr.py:67 | `findall("*")` keeps exactly the element children |
| Description.FindChild | src/berry_mill/imgdescr/descr.py:47 | `find(name)` gives the first child with that tag, or none exactly when no child has it |
| Description.Entries | src/berry_mill/imgdescr/descr.py:67 | the entries are exactly the element children of the root |
| Description.ResolveParent | src/berry_mill/imgdescr/descr.py:43-56 | `_resolve`: no `inherit` child leaves nothing inherited; an `inherit` without `path` fails; otherwise the result is the document at that path |
| Description.ApplyOne | src/berry_mill/imgdescr/descr.py:67-69 | an entry keeps the derived cells' contents |
| Description.ApplyAll | src/berry_mill/imgdescr/descr.py:67-69 | the loop over the entries keeps both trees well formed |
| Description.Describe | src/berry_mill/imgdescr/descr.py:23-27 | construction resolves then applies, keeping both trees well formed |
| Description.Policies | src/berry_mill/imgdescr/descr.py:68 | the entries that name one of the six policies |
| Description.OthersIgnored | src/berry_mill/imgdescr/descr.py:68-69 | applying all entries is applying only those that name a policy |
| Description.PoliciesIn | src/berry_mill/imgdescr/descr.py:68 | the policy entries are entries of the document |
| Description.SkipOne | src/berry_mill/imgdescr/descr.py:68 | an entry naming no policy changes nothing |
| Description.PoliciesKept | src/berry_mill/imgdescr/descr.py:68 | which entries name a policy depends only on their tags |
| Description.ApplianceDescription.constructor | src/berry_mill/imgdescr/descr.py:23-25 | the two documents are stored |
| Description.ApplianceDescription.RemoveAny | src/berry_mill/imgdescr/descr.py:215-227 | `_remove_any` edits `p_dom` as its specification says |
| Description.ApplianceDescription.Replace | src/berry_mill/imgdescr/descr.py:201-213 | `_replace` always succeeds and edits the documents as its specification says |
| Description.ApplianceDescription.Merge | src/berry_mill/imgdescr/descr.py:180-199 | `_merge` with the marker "merge" edits the documents as its specification says |
| Description.ApplianceDescription.Remove | src/berry_mill/imgdescr/descr.py:157-178 | `_remove` with the marker "remove" edits `p_dom` as its specification says, or fails with its error |
| Description.ApplianceDescription.Add | src/berry_mill/imgdescr/descr.py:135-155 | `_add` edits the documents as its specification says, or fails with its error |
| Description.ApplianceDescription.Set | src/berry_mill/imgdescr/descr.py:229-247 | `_set` edits `p_dom` as its specification says, or fails with its error |
| Description.ApplianceDescription.Dispatch | src/berry_mill/imgdescr/descr.py:68-69 | an entry runs the method its tag names, or is skipped |
| Description.ApplianceDescription.Apply | src/berry_mill/imgdescr/descr.py:58-69 | the entries are applied in order; the first failure stops the loop |
| Description.Load | src/berry_mill/imgdescr/descr.py:23-27 | construction succeeds iff its specification does, and then holds the specified documents |
| Inheritance.UqAppend | src/berry_mill/imgdescr/loader.py:10-12 | the list gains `x` only if absent: a prefix is kept, no duplicate appears, and the members are the old ones plus `x` |
| Inheritance.Reversed | src/berry_mill/imgdescr/loader.py:42 | the reversal holds the same paths in the opposite order |
| Inheritance.ReversedUnique | src/berry_mill/imgdescr/loader.py:42 | reversing keeps the list free of duplicates |
| Inheritance.UqList.constructor | src/berry_mill/imgdescr/loader.py:6 | a new list is empty |
| Inheritance.UqList.Append | src/berry_mill/imgdescr/loader.py:10-12 | `append` skips a path already present and keeps the list duplicate-free |
| Inheritance.UqList.Reverse | src/berry_mill/imgdescr/loader.py:42 | `reverse` reverses the list in place |
| Inheritance.UqList.Clear | src/berry_mill/imgdescr/loader.py:63 | `clear` empties the list |
| Inheritance.StopMeans | src/berry_mill/imgdescr/loader.py:25-32 | `StepOf`: a document stops the chain iff it is readable and has no `inherit` element anywhere |
| Inheritance.TraverseSpec | src/berry_mill/imgdescr/loader.py:19-36 | the list after `_traverse` is never empty |
| Inheritance.Chain | src/berry_mill/imgdescr/loader.py:31-34 | the chain of paths starts at the start path |
| Inheritance.TerminatesEnds | src/berry_mill/imgdescr/loader.py:19-36 | a terminating traversal follows a finite chain |
| Inheritance.TraverseEnd | src/berry_mill/imgdescr/loader.py:23-36 | a document with no `inherit` adds only its own path, once |
| Inheritance.TraverseNext | src/berry_mill/imgdescr/loader.py:23-34 | a document with `inherit` adds its path and the next path, then continues there |
| Inheritance.TraverseStack | src/berry_mill/imgdescr/loader.py:19-36 | the list becomes the old list, the start path unless present, then the rest of the chain |
| Inheritance.TraverseUnique | src/berry_mill/imgdescr/loader.py:19-36 | the list never holds a path twice |
| Inheritance.TraverseChain | src/berry_mill/imgdescr/loader.py:23-34 | for an acyclic chain p0 -> ... -> pn, the list becomes the old one followed by `[p0, ..., pn]` |
| Inheritance.LoneDocument | src/berry_mill/imgdescr/loader.py:23-36 | a lone document gives a one-element list |
| Inheritance.TraverseOutcome | src/berry_mill/imgdescr/loader.py:25-29 | `_traverse` succeeds iff the last document of the chain is readable and inherits nothing; a failure is that document's (unreadable file, or `inherit` without `path`) |
| Inheritance.MergeStep | src/berry_mill/imgdescr/loader.py:47-51 | building a description, alone or on a base, gives a well-formed tree |
| Inheritance.ReadDoc | src/berry_mill/imgdescr/loader.py:46-51 | reading a path succeeds iff the file holds a document, and otherwise names the path |
| Inheritance.FoldFrom | src/berry_mill/imgdescr/loader.py:49-51 | the fold gives a well-formed tree |
| Inheritance.Flattened | src/berry_mill/imgdescr/loader.py:38-53 | the flattened description, as intended, is a well-formed tree |
| Inheritance.FoldSnoc | src/berry_mill/imgdescr/loader.py:49-51 | folding one more path builds its description on the result so far |
| Inheritance.FlattenSnoc | src/berry_mill/imgdescr/loader.py:42-53 | flattening a longer list builds the last description on the flattening of the rest |
| Inheritance.LoneFlattens | src/berry_mill/imgdescr/loader.py:45-53 | a description without `inherit` flattens to itself |
| Inheritance.ChainFailsAsWritten | src/berry_mill/imgdescr/loader.py:51 | `FlattenAsWritten`: as written, every chain of two or more fails; where the intended fold succeeds, it fails with `TypeError` |
| Inheritance.MergeOnto | src/berry_mill/imgdescr/loader.py:51 | the constructor with a base computes one step of the fold |
| Inheritance.FoldIn | src/berry_mill/imgdescr/loader.py:49-51 | the loop of `_flatten` computes the fold |
| Inheritance.Loader.constructor | src/berry_mill/imgdescr/loader.py:16-17 | a new loader has an empty list |
| Inheritance.Loader.Traverse | src/berry_mill/imgdescr/loader.py:19-36 | `_traverse` leaves the list and the outcome its specification gives |
| Inheritance.Loader.Flatten | src/berry_mill/imgdescr/loader.py:38-53 | `_flatten` reverses the list in place and returns the intended fold of it (the source's own fold fails, see Findings) |
| Inheritance.Loader.Load | src/berry_mill/imgdescr/loader.py:55-65 | `load` traverses, then flattens with the intended fold (see Findings), then clears the list, so the next load starts empty; a failed traversal leaves the list it built, a failed flatten leaves it reversed |
| KiwiArgs.Components | src/berry_mill/kiwiapp.py:104 | a repository always has at least one component |
| KiwiArgs.Fields | src/berry_mill/kiwiapp.py:107-117 | a value has ten fields |
| KiwiArgs.FieldsMeaning | src/berry_mill/kiwiapp.py:110-116 | alias is the repository name, three empty fields, a braced key, an empty component field only for `/` (or an empty component), an empty distribution without `name`, and `false` last |
| KiwiArgs.AppendComponents | src/berry_mill/kiwiapp.py:105-117 | the inner loop appends the component tokens |
| KiwiArgs.GenerateRepoString | src/berry_mill/kiwiapp.py:94-119 | the loops build a token list and return it joined by spaces |
| KiwiArgs.JoinTen | src/berry_mill/kiwiapp.py:110-116 | ten fields in the shape of an `--add-repo` value, joined by commas, are the seven f-strings concatenated |
| KiwiArgs.AddRepoFields | src/berry_mill/kiwiapp.py:109-117 | each value is the ten fields joined by commas; without commas in the settings, splitting it at commas gives them back |
| KiwiArgs.IgnoreReposFirst | src/berry_mill/kiwiapp.py:100-119 | `RepoOptions` (the `--ignore-repos` arguments): the string starts with `--ignore-repos` |
| KiwiArgs.TokensRoundTrip | src/berry_mill/kiwiapp.py:119 | without spaces in the tokens, splitting the string at spaces gives the tokens |
| KiwiArgs.ComponentArgsAt | src/berry_mill/kiwiapp.py:105-117 | the i-th component gives `--add-repo` at position 2i and its value at 2i+1 |
| KiwiArgs.RepoArgsAppend | src/berry_mill/kiwiapp.py:102-103 | repositories contribute in dict order |
| KiwiArgs.RepoArgsCount | src/berry_mill/kiwiapp.py:102-106 | `RepoArgs`: one `--add-repo` and one value per component over all repositories |
| KiwiArgs.DefaultComponent | src/berry_mill/kiwiapp.py:104-114 | a repository without `components` contributes one value, for `/`, whose component field is empty |
| KiwiArgs.JoinUnderRoot | src/berry_mill/kiwiapp.py:92 | `PathJoin` (`os.path.join`): `os.path.join("/", b, "args.txt")` for a slash-free `b` |
| KiwiArgs.RelativePathShape | src/berry_mill/kiwiapp.py:91-92 | `RelativePath`: the path is `/<basename>/args.txt`, or `/args.txt` when the directory ends with `/` |
| Mounts.Keep | src/berry_mill/mountpoint.py:33 | exactly the tokens other than `on` and `type` are kept |
| Mounts.LineRecord | src/berry_mill/mountpoint.py:30-33 | a line gives at most one record |
| Mounts.ParseLinesAppend | src/berry_mill/mountpoint.py:30-33 | the records of two blocks of lines are concatenated |
| Mounts.RecordsClean | src/berry_mill/mountpoint.py:32-33 | no record holds `on` or `type`, and none has more than six fields |
| Mounts.KeepStandard | src/berry_mill/mountpoint.py:33 | `dev on mpt type fs attrs` keeps `[dev, mpt, fs, attrs]` |
| Mounts.SplitTokens | src/berry_mill/mountpoint.py:30-31 | a line of single-spaced tokens strips and splits back into them |
| Mounts.StandardLine | src/berry_mill/mountpoint.py:30-33 | a standard line becomes the record `[dev, mpt, fs, (attrs)]` |
| Mounts.JoinFirst | src/berry_mill/mountpoint.py:30 | a joined line starts with the first character of its first token |
| Mounts.JoinLast | src/berry_mill/mountpoint.py:30 | a joined line ends with the last character of its last token |
| Mounts.A2T | src/berry_mill/mountpoint.py:49-50 | `_a2t` yields at least one item |
| Mounts.A2TRoundTrip | src/berry_mill/mountpoint.py:49-50 | `_a2t("(" + ",".join(xs) + ")")` is `xs` for comma-free items |
| Mounts.StopAt | src/berry_mill/mountpoint.py:56-59 | the loop stops at the first record that matches or cannot be unpacked |
| Mounts.AttrsByStop | src/berry_mill/mountpoint.py:56-60 | the lookup's result is decided at that record |
| Mounts.AttrsByMeans | src/berry_mill/mountpoint.py:52-70 | `AttrsBy`: the lookup fails iff a record that is not four fields comes before any match; otherwise it gives the attributes of the first match, and `()` iff nothing matches |
| Mounts.LineAttrs | src/berry_mill/mountpoint.py:30-70 | for a standard line, both lookups find its attributes |
| Mounts.FindAttrs | src/berry_mill/mountpoint.py:56-60 | the loop computes the lookup |
| Mounts.ParseOutput | src/berry_mill/mountpoint.py:29-33 | the loop computes `ParseMount`: the records of the lines of the output, each as `LineRecord` splits it |
| Mounts.MountData.constructor | src/berry_mill/mountpoint.py:28-33 | the records are the parse of the `mount` text |
| Mounts.MountData.GetAttrsByDev | src/berry_mill/mountpoint.py:52-60 | the lookup by device |
| Mounts.MountData.GetAttrsByMpt | src/berry_mill/mountpoint.py:62-70 | the lookup by mountpoint |
| Mounts.LoopDevice | src/berry_mill/mountpoint.py:94-95 | the device for a partition iff it has one |
| Mounts.Values | src/berry_mill/mountpoint.py:101 | the devices in partition order |
| Mounts.AddToFacts | src/berry_mill/mountpoint.py:83-86 | `AddTo` (`add`): `add(p, d)` puts `p` among the partitions and maps it to `d`; other partitions keep their devices |
| Mounts.MountPoint.constructor | src/berry_mill/mountpoint.py:79-81 | a new mount point is empty |
| Mounts.MountPoint.Add | src/berry_mill/mountpoint.py:83-86 | `add` updates the partitions and devices in place and returns the object itself |
| Mounts.MountPoint.GetPartitions | src/berry_mill/mountpoint.py:88-92 | exactly the partitions |
| Mounts.MountPoint.GetLoopDevice | src/berry_mill/mountpoint.py:94-95 | the device of a partition, or `None` |
| Mounts.MountPoint.GetLoopDevices | src/berry_mill/mountpoint.py:97-101 | the device of each partition, in insertion order |
| Mounts.Decimal | src/berry_mill/mountpoint.py:285 | a decimal numeral is made of digits |
| Mounts.DecimalRoundTrip | src/berry_mill/mountpoint.py:285 | `ParseInt` (`int()`): `int()` reads back the numeral of `n` |
| Mounts.DecimalPlain | src/berry_mill/mountpoint.py:285 | a numeral holds no `p` and no `/` |
| Mounts.LoopBasename | src/berry_mill/mountpoint.py:285-299 | the basename of `/dev/loopX` without its first four characters is `X` |
| Mounts.PartitionOfLoop | src/berry_mill/mountpoint.py:285 | `PartitionNumber`: `/dev/loopNpK` has the partition number K |
| Mounts.WholeDeviceNumber | src/berry_mill/mountpoint.py:285 | `/dev/loopN` has the number N |
| Mounts.RootOfName | src/berry_mill/mountpoint.py:297-306 | `RootLoopDevice`: the root device comes from the first device's number before any `p` |
| Mounts.RootOfPartition | src/berry_mill/mountpoint.py:297-306 | a first device `loopNpK` gives the root `/dev/loopN` |
| Mounts.RootOfWhole | src/berry_mill/mountpoint.py:297-306 | a first device `loopN` gives the root `/dev/loopN` |
| Mounts.StoreAt | src/berry_mill/mountpoint.py:156-191 | storing under an image adds that entry and keeps every entry of other images |
| Mounts.PathLookupMisses | src/berry_mill/mountpoint.py:140-142 | `MountpointByKey`: as written, looking up a mountpoint by path text never finds one |
| Mounts.StoredByPtr | src/berry_mill/mountpoint.py:249-253 | `MountpointByKey`: looked up by the `ImagePtr` itself, a stored image is found with the mount last stored for it |
| Mounts.MountpointByPath | src/berry_mill/mountpoint.py:140-142 | as intended, the lookup by image path finds a mount iff an image with that path is stored |
| Mounts.StoredMountFound | src/berry_mill/mountpoint.py:140-156 | a mount stored for an image is then found by the image's path |
| Mounts.MountPointsMeans | src/berry_mill/mountpoint.py:224-231 | `MountPoints`: a path is listed iff some stored mount point holds it |
| Mounts.LoopDevicesMeans | src/berry_mill/mountpoint.py:234-238 | `LoopDevices`: a device is listed exactly when some stored mount records it for one of its directories |
| Mounts.LoopDeviceOf | src/berry_mill/mountpoint.py:241-246 | a device is found iff some stored mount point maps the mountpoint, and it is that mapping |
| Mounts.ImagePath | src/berry_mill/mountpoint.py:256-264 | an image path is found iff some stored mount point holds the mountpoint, and it is that image's path |
| Mounts.OrdInMeans | src/berry_mill/mountpoint.py:284-286 | `OrdIn`: the partition found has the number; the result is "none" iff the number of every partition reads and differs |
| Mounts.PartitionByOrdMeans | src/berry_mill/mountpoint.py:276-287 | `PartitionByOrd`: the partition found belongs to a stored mount and has the number; the result is "none" iff the number of every partition of every mount reads and differs |
| Mounts.OrdInHead | src/berry_mill/mountpoint.py:284-286 | a first partition whose number does not read and differ is the answer, or the `int()` failure on its text |
| Mounts.OrdInSkip | src/berry_mill/mountpoint.py:284-285 | a first partition whose number reads and differs is passed over |
| Mounts.OrdInFirst | src/berry_mill/mountpoint.py:284-286 | the first partition whose number does not read and differ decides the result: found, or the `int()` failure on its text |
| Mounts.OrdInFrom | src/berry_mill/mountpoint.py:284-285 | a run of partitions whose numbers read and differ is passed over: the search goes on from the first one after it |
| Mounts.StoreFrom | src/berry_mill/mountpoint.py:276-287 | mount points all of whose partition numbers read and differ are passed over |
| Mounts.PartitionByOrdFirst | src/berry_mill/mountpoint.py:276-287 | the first mount with a partition whose number does not read and differ decides the result |
| Mounts.PartitionByOrdFound | src/berry_mill/mountpoint.py:276-287 | a found partition belongs to a stored mount and has the number |
| Mounts.PartitionByOrdNone | src/berry_mill/mountpoint.py:276-287 | the result is "none" iff the number of every stored partition reads and differs |
| Mounts.MountManager.constructor | src/berry_mill/mountpoint.py:114-117 | the store starts empty, with no mount data |
| Mounts.MountManager.Put | src/berry_mill/mountpoint.py:156-191 | the store records the mount point under the image |
| Mounts.MountManager.GetMountpoints | src/berry_mill/mountpoint.py:224-231 | the partitions of all stored mount points, concatenated |
| Mounts.MountManager.GetLoopDevices | src/berry_mill/mountpoint.py:234-238 | the devices of all stored mount points, concatenated |
| Mounts.MountManager.GetLoopDeviceByMountpoint | src/berry_mill/mountpoint.py:241-246 | the device of the first mount point that maps the path |
| Mounts.MountManager.GetMountpoint | src/berry_mill/mountpoint.py:249-253 | the dict lookup by key |
| Mounts.MountManager.GetImagePath | src/berry_mill/mountpoint.py:256-264 | the path of the first image whose mount point holds the mountpoint |
| Mounts.MountManager.IsWritable | src/berry_mill/mountpoint.py:267-273 | the mount data is read once and kept; the answer (`Writable`) is whether `rw` is among the attributes and `ro` is not |
| Mounts.MountManager.GetPartitionMountpointByOrd | src/berry_mill/mountpoint.py:276-287 | the result is `PartitionByOrd` of the store; by `PartitionByOrdFirst` and `OrdInFirst` that is the first partition whose number does not read and differ, found or failed with the `int()` error on its text |
| Mounts.MountManager.Flush | src/berry_mill/mountpoint.py:289-310 | every stored path is unmounted, the root device comes from the first device, and the mount data is dropped |
| Mounts.OrdInLoop | src/berry_mill/mountpoint.py:284-286 | the inner loop computes the search in one mount point |
| Mounts.ManagerClass.constructor | src/berry_mill/mountpoint.py:110 | there is no instance yet |
| Mounts.ManagerClass.New | src/berry_mill/mountpoint.py:114-118 | the first call creates the instance with an empty store; later calls return that same instance |
| Mounts.ManagerClass.NewTwice | src/berry_mill/mountpoint.py:114-118 | two calls give the same instance |
| Plugins.NewPlugin | src/berry_mill/plugin.py:47-55 | construction fails, with the first assert's message, iff `name` is empty or white space; `title` is never checked |
| Plugins.Register | src/berry_mill/plugin.py:23-28 | an instance is stored under its name, replacing any earlier one; any other object leaves the table unchanged |
| Plugins.Lookup | src/berry_mill/plugin.py:33-34 | the plugin for a known name, else `None` |
| Plugins.RegisterAll | src/berry_mill/plugin.py:23-28 | registering a sequence keeps the table consistent |
| Plugins.LastNamed | src/berry_mill/plugin.py:25 | the last instance offered under a name has that name |
| Plugins.RegisterAllSnoc | src/berry_mill/plugin.py:23-28 | registering one more object is one more call |
| Plugins.LastRegistrationWins | src/berry_mill/plugin.py:23-34 | after a sequence of calls, a name finds exactly the last instance registered under it |
| Plugins.RegisteredNames | src/berry_mill/plugin.py:23-31 | the names listed are exactly those of the instances registered |
| Plugins.PluginRegistry.constructor | src/berry_mill/plugin.py:20-21 | a new registry is empty |
| Plugins.PluginRegistry.Call | src/berry_mill/plugin.py:23-28 | `__call__` updates the table in place and returns the registry itself |
| Plugins.PluginRegistry.PluginNames | src/berry_mill/plugin.py:30-31 | `plugins()` lists, once each, exactly the names a lookup finds |
| Plugins.PluginRegistry.Get | src/berry_mill/plugin.py:33-34 | `registry[name]` is the lookup |
| KkzPaths.P2A | src/berry_mill/plugins/kernkompozzer/kkzflow.py:38-44 | a non-string value and a value without `dir://` or `file://` are rejected with their assertion messages |
| KkzPaths.DirPrefixKept | src/berry_mill/plugins/kernkompozzer/kkzflow.py:41 | the `dir://` prefix survives the rewriting |
| KkzPaths.FilePrefixRewritten | src/berry_mill/plugins/kernkompozzer/kkzflow.py:41 | a `file://` prefix becomes `dir://` |
| KkzPaths.RewriteKeepsHead | src/berry_mill/plugins/kernkompozzer/kkzflow.py:41-42 | a text not starting with `/` still does not after the rewriting |
| KkzPaths.FileIsDir | src/berry_mill/plugins/kernkompozzer/kkzflow.py:41 | `file://X` converts exactly as `dir://X` does |
| KkzPaths.AbsolutePath | src/berry_mill/plugins/kernkompozzer/kkzflow.py:42-43 | `dir:///X` becomes `/X`, keeping the leading slash |
| KkzPaths.RelativePath | src/berry_mill/plugins/kernkompozzer/kkzflow.py:44 | any other `dir://X` becomes the working directory, `/`, then `X` |
| KkzPaths.NothingToRewrite | src/berry_mill/plugins/kernkompozzer/kkzflow.py:41 | a text in which `file://` never starts is not rewritten |
| KkzPaths.PrefixStarts | src/berry_mill/plugins/kernkompozzer/kkzflow.py:41 | `StartsWith` (`s.startswith(p)`): a text starting with `pre` starts with every prefix of `pre` |

## Left out

- lxml tails, processing instructions and entities are not modelled. A `Cell` has no `tail`, and a `Tag` is an element or a comment only. In lxml, `append` and `remove` take the node's tail text with it: `<a><b/>x</a>` after `a.remove(b)` serialises as `<a/>`, and after a move the `x` travels with `b`. `Xml.Detach`, `Xml.MoveWithin` and `Xml.Graft` state only what happens to the element structure. A processing instruction among a policy's children cannot be represented; `get_next` (descr.py:129-133) skips only comments and would return it, where `Queries.FirstElement` never sees one.
- `to_str` (minidom pretty printing, blank-line filter) and the `print` in the constructor are not modelled. Each fold step of `_flatten` hands the tree itself on to the next step, as if the serialised text parsed back to the same tree.
- `ET.fromstring` and file reading: a description file is a path in a map to a parsed document, or to nothing when it cannot be read or parsed.
- `os.path.exists` in `_resolve` is the same map: a path that is absent fails with `Missing`.
- YAML parsing and XPath evaluation in `_set` are function parameters. The YAML loader's result says whether a scanner error was raised (caught, so the tree is unchanged), another error was raised, the value is not a mapping of strings, or a mapping was produced. The XPath result is a list of hits, each a node or a non-node value.
- SetPolicy.SetEach: lxml's `set(k, v)` raises `ValueError` when `k` is not a valid XML attribute name (a YAML key such as `my attr`) or `v` holds characters XML does not allow, such as control characters. lxml's validation is not part of this model. The loaded keys are taken to be valid attribute names and the values XML text, so `SetEach` sets such pairs where the source raises.
- SetPolicy.SetEachFails: its iff covers only hits that are not elements. The `ValueError` above is not among the failures it lists.
- SetPolicy.Set: inherits the `SetEach` assumption. A mapping with an invalid key or value succeeds in the model.
- Description.ApplianceDescription.Set: inherits the same assumption through `SetPolicy.Set`.
- Mounts.MountManager.Put: the store keeps a copy of the mount point's state, `mp.State()`. Python's `_mountstore[img_ptr] = mpt` keeps the `MountPoint` object, so a later `add` on it, or on the object `get_mountpoint` returns, would show in the store. mountpoint.py adds every partition before it stores the mount point (lines 156 and 189-191) and never adds one afterwards, so no behaviour of that file is lost.
- A method of `ApplianceDescription` that raises part-way has already changed `p_dom` in Python. The class methods do not keep the documents of a failed call, and the specifications do not describe them.
- Description.ApplianceDescription.RemoveAny: the order set iteration removes the nodes in is not modelled. Every order gives the same tree, and the method removes in some order.
- Mounts.MountPoint.GetPartitions: a Python `set` has no order. The model returns the set's elements in insertion order (the `order` field), and its contract states both that order and that the elements are exactly the partitions. Python may list them in any other order. The same chosen order also fixes the order of `Mounts.MountManager.GetMountpoints` (through `Mounts.MountPoints`) and the unmount order of `Mounts.MountManager.Flush`, and it decides which hit comes first in `Mounts.PartitionByOrd` and `Mounts.MountManager.GetPartitionMountpointByOrd`; in Python those orders, and which of several partitions with the same number is returned, follow the set's own iteration order.
- RemovePolicy.RemoveLeaves: its own contract states only that links are cut. Which links is bounded from both sides, by `RemoveLeavesComplete` and `LeavesInside`. A node can also lose its parent after its own children were removed earlier in the loop, and that cascade is not stated in closed form.
- RemovePolicy.RemoveAggregates: its own contract states only that links are cut. `AggregatesComplete` and `AggregatesInside` give the lower and upper bounds. The cascade of nodes that become childless during the loop is not stated in closed form.
- RemovePolicy.RemoveEach: its own contract states only that links are cut and contents kept. Each entry is described by `RemoveChildless`, `AggregateEntryRemoves` and `AggregateEntryOnly`. Over several entries, a later entry sees the tree an earlier one left, and the composition is not restated.
- RemovePolicy.Remove: the same as `RemoveEach`. Beyond cut links and kept contents, only the per-entry lemmas describe the result.
- MergePolicy.MergeKids: its own contract states only that the target grows. What it appends is stated by `MergeKidsTrees`, `AppendedMem`, `MergeKidsCover` and `MergeKidsNew`.
- MergePolicy.MergeTargets: its own contract states only that the tree grows. The turn of each target is stated by `MergeKidsTrees`, and `MergeTargetsCover` gives the tags every matching target ends with. The exact trees a later target gains depend on what earlier turns moved out of `S`, and are not restated for the whole loop.
- MergePolicy.Merge: beyond growth, it is described by `MergeOnlyMatched` (only matching elements gain children) and `MergeCovers` (each matching element ends with a child of every tag `S` still has). The exact trees appended are stated per target turn.
- ReplacePolicy.Replace: its own contract states kept contents for a success, and ReplaceOk proves that success always happens. The new links are `ReplaceUps`, the tree afterwards is `ReplaceLive`, and where `S` goes is `ReplacePlaces`.
- ReplacePolicy.ReplaceRemoves: states that nothing enters and every matching element leaves. The exact frame (every other node stays unless it was under a replaced element) is `ReplaceLive`.
- AddPolicy.AddOneExact: states the exact new state (only the first match gains nodes, copies of the children of `c`) rather than the count of elements with the tag and attributes of `c`. That count grows when a moved child itself carries them.
- `_add` raises `UnboundLocalError` when `tc` was never bound. This is modelled as the failure `UnboundTc` (`AddPolicy.AddOneUnbound`) rather than excluded by a precondition.
- `_traverse` does not return when an inherited path is already on the list, because `self.__i_stack[-1]` is then not the followed path. In CPython the recursion then ends in `RecursionError`. It becomes `IOError` only when the depth limit is hit inside the `try` at loader.py:25-29, which covers only the reading and parsing. Hit in `find_all` (line 31) or in `UqList.append` (lines 23 and 33), it reaches the caller as `RecursionError`, and `find_all` is where it usually happens. `Inheritance.Loader.Traverse` requires every followed path to be new, within a ghost bound `n` of nested calls, so that failure is not modelled. Inheritance.Loader.Load carries the same requires, since it calls `Traverse`, and for a chain of two or more descriptions it returns the intended fold rather than the `TypeError` of loader.py:51 (see Findings).
- Inheritance.Loader.Flatten: requires a non-empty list; `_flatten` on an empty list raises `StopIteration`. `Load` always calls it after a traversal, which leaves at least one path.
- The `MountData.update_mount_data` decorator creates the mount data on the first decorated call when there is none. Only `IsWritable` reads that data, so only it models the creation; the other lookups are pure.
- `os.popen("mount")` is the text parameter of `MountData`. The model splits it at `\n`, which is the POSIX `os.linesep`.
- `int()` in `get_partition_mountpoint_by_ord` is modelled as accepting an optional sign and ASCII digits only. Surrounding white space, underscores and non-ASCII digits are not modelled.
- The `mount`/`umount`/`losetup` calls, `wait_mount`, temporary directories, `__mount_partition_image`, `__mount_disk_image`, `mount` and `umount` are I/O and are not modelled. `Flush` returns the paths it would unmount and the root device it would detach.
- `ImagePtr` objects are compared by identity in the store. An `id` field stands for that identity.
- Repository settings are taken to be strings, as the type annotation says. A missing setting prints as `None`.
- `KiwiApp.__init__`, the `run` methods and `_write_repo_string` are I/O and are not modelled.
- `plugins_loader` and the abstract plugin methods are not modelled. A `PluginIf` instance is modelled by its title and name.
- Of kkzflow.py only `_p2a` is modelled; `os.path.abspath(".")` is a parameter.
- Logging is left out everywhere.

## Findings

| source | as written | input that shows it | evidently intended | confidence | as-written member | corrected member |
|---|---|---|---|---|---|---|
| src/berry_mill/imgdescr/loader.py:51 | `ApplianceDescription(fp.read(), descr.to_str())` passes two arguments to a constructor that takes one | any chain of two descriptions, where the start description inherits from a readable root | build the derived description on the previous result | not executed | Inheritance.ChainFailsAsWritten | Inheritance.FlattenSnoc |
| src/berry_mill/mountpoint.py:140 | `get_mountpoint(img_ptr.path)` looks a path string up in a store keyed by `ImagePtr` objects, so it is always `None` and the image is mounted again | mounting the same partition image twice | find the mount point already stored for that image path | not executed | Mounts.PathLookupMisses | Mounts.StoredMountFound |
