# graftr checkpoint tree in Dafny

graftr is an interactive shell that edits PyTorch checkpoints as if they were
a file system. This project models its in-memory tree and the edits made to
it, all in `graftr.py`:

- the node family `DictNode`, `PartialNode` and `ValueNode`;
- `Tree._from_state_dict`, which builds the tree from a nested or dotted
  state dict;
- `resolve`, `resolve_path` and `insert`;
- the `state_dict` serialisers;
- the structural commands `rm`, `mv` and `cp`, with their argument
  regexes, `_rm_node`, `_dirname`, `_basename` and the batch
  `rename_multiple`.

## Shape of the model

- **Nodes.** A node is one immutable datatype: `Dir(kind, name, children)`
  for a group, with kind `Dict` or `Partial`, or `Leaf(name, value)`. Leaf
  values have an opaque type `V`.
- **Locations.** Parent links are not stored. A node is named by its
  location: the child indices that lead to it from the root. The root is
  `[]` and is its own parent. Indices, not names, identify nodes, because
  `add_child` accepts a second child of the same name and `child` returns the
  first one.
- **Mutation.** Python's in-place edits become pure functions:
  - `Put` replaces the subtree at a location;
  - `AppendAt` is `add_child`;
  - `RemoveAt` is `children.remove`.

  `Shift` says where a location ends up after a removal. It is `None` when the
  removed subtree contained it.
- **Commands.** A command maps a `Session` (tree plus `_dirty` flag) to one
  of three outcomes:
  - `Done(session)`;
  - `Refused(why)`: a printed message, with the session unchanged;
  - `Crashed(fault)`: an uncaught exception, which ends the shell before
    anything is saved.

  `Check` is the guard sequence shared by `do_mv` and `do_cp`. It returns a
  `Plan` that names the branch taken. `DoRm`, `DoMv` and `DoCp` take the
  whole argument line and split it with the command's regex first.
- **State dicts.** An input state dict is an ordered list of items, because
  Python's dict order decides the build order and so which clash crashes. An
  output state dict is a `map`, and `dict.update` is map union in which the
  right operand wins.

The hazards of the source are modelled as they behave, not prevented:

- duplicate sibling names after `cp` or `mv` into a group;
- the source lost when `mv` targets a group that pruning detaches;
- a crash when `mv` or `cp` reaches a `ValueNode` through `insert`;
- a crash on `mv` of the root;
- the `assert` that fails when a dotted key runs into a non-`PartialNode`.

The `Scenarios` module shows each one on a concrete tree.

## Model

| member | source | states |
|---|---|---|
| Paths.Split | graftr.py:159-160 | `str.split` on one character gives at least one piece, and no piece contains the separator |
| Paths.JoinSplit | graftr.py:35-38 | joining the pieces of a split with the same separator gives back the original string |
| Paths.SplitJoin | graftr.py:180 | splitting a join of separator-free pieces gives back exactly those pieces |
| Paths.Normalize | graftr.py:181-188 | the normalisation loop yields only proper segments (non-empty, not `.` or `..`, no `/`) and never grows beyond its input |
| Paths.NormalizeAppend | graftr.py:181-188 | the loop is a left fold: normalising `a + b` is normalising `b` from the result of `a` |
| Paths.NormalizeSegments | graftr.py:181-188 | proper segments pass through the loop unchanged |
| Paths.NormalizeCanonical | graftr.py:176-189 | re-normalising the pieces of a canonical path gives back its segments, so `resolve_path` is stable on its own output |
| Paths.CanonicalInjective | graftr.py:189 | two segment lists with the same canonical path are equal |
| Paths.CanonicalPrefix | graftr.py:445 | an ancestor's path followed by `/` is a prefix of every descendant's path followed by `/` |
| Paths.SplitCanonical | graftr.py:177 | a canonical path splits into an empty first piece followed by its segments, and `/` splits into two empty pieces |
| Paths.Collapse | graftr.py:35 | `re.sub(r'/+', '/')` leaves no two adjacent slashes and keeps the first character |
| Paths.CollapseDropsOnlySlashes | graftr.py:35 | the collapse removes only slashes: every other character keeps its count |
| Paths.CollapseIdentity | graftr.py:35 | the collapse changes nothing in a string without `//` |
| Paths.CanonicalNoDoubleSlash | graftr.py:189 | a path built from proper segments has no `//` |
| Paths.DirnameBasename | graftr.py:34-42 | on a canonical path, `_basename` is the last segment, and `_dirname` is the canonical path of the other segments (`/` for a top-level path) |
| Paths.DirnameSplit | graftr.py:34-42 | for any path, `_dirname`, a `/` and `_basename` rebuild the collapsed path (the dirname `/` counting as empty); a path without `/` has an empty dirname and is its own basename |
| Paths.Basename | graftr.py:41-42 | the basename, the last piece of the split, holds no `/` |
| Arguments.TwoWords | graftr.py:432 | the groups of `([^\s]+)\s+([^\s]+)\s*$` are non-empty and hold no whitespace |
| Arguments.OneWord | graftr.py:472 | the group of `([^\s]+)\s*$` is non-empty and holds no whitespace |
| Arguments.TwoWordsComplete | graftr.py:432 | every line made of a word, whitespace, a word and trailing whitespace matches, with those two words as the groups |
| Arguments.TwoWordsSound | graftr.py:432 | every matching line is made of the two groups, non-empty whitespace between them, and trailing whitespace |
| Arguments.JoinedWords | graftr.py:258 | `f"{x} {y}"` of two words matches with exactly `x` and `y` as the groups |
| Arguments.LeadingSpaceRefused | graftr.py:432 | `re.match` anchors at the start, so a line that starts with whitespace never matches either regex |
| Arguments.BlankSecondRefused | graftr.py:432 | a word followed by a space and only whitespace has no second group and does not match |
| Arguments.OneWordIff | graftr.py:472 | a word followed by whitespace matches `([^\s]+)\s*$` with the word as the group, and nothing else of that shape does |
| Nodes.IsRoot | graftr.py:66-68 | a location is the root exactly when its parent is itself |
| Nodes.ParentHolds | graftr.py:53-55 | a non-root node's parent exists, is a group, and holds the node at the node's last index |
| Nodes.Child | graftr.py:93-97 | `child` returns the first child with that name, and `None` exactly when no child has that name |
| Nodes.ChildOf | graftr.py:131-132 | a found child exists and carries the name; a `ValueNode` has no child |
| Nodes.UpNamesReversed | graftr.py:60-64 | the names collected going up from a node, reversed, are the names going down from the root |
| Nodes.FullName | graftr.py:58-64 | `full_name` is `/` plus the `/`-joined names from the root, and `/` for the root |
| Nodes.Clone | graftr.py:74-82 | a clone differs from the node at most in its name, takes the new name when one is given, and holds the same leaf values; `CommandFacts.CopyInto` and `CommandFacts.CopyRenamed` state what this means for `cp` |
| Nodes.ValueNodes | graftr.py:99-103 | `value_nodes` lists only leaves, and a leaf lists itself |
| Nodes.ValueNodesValues | graftr.py:99-103 | the values of `value_nodes` are exactly the leaf values of the subtree |
| Nodes.LeafValuesAppend | graftr.py:102 | `ret += child.value_nodes()` adds up the leaf values of the pieces |
| Locations.PutAt | graftr.py:91 | after replacing the subtree at a location, that location holds the new subtree |
| Locations.PutValues | graftr.py:91 | replacing a subtree trades its leaf values for those of the new one |
| Locations.PutDiverge | graftr.py:91 | replacing a subtree leaves every node outside it and off its path unchanged |
| Locations.AtConcat | graftr.py:93-97 | walking `p + q` from the root is walking `q` from the node at `p` |
| Locations.PrefixValid | graftr.py:55 | every ancestor of an existing node exists |
| Locations.RemoveAtParent | graftr.py:606 | `children.remove` drops exactly that child from its parent |
| Locations.RemoveThenParent | graftr.py:606-609 | removing a node and then its parent is the same as removing the parent |
| Locations.RemoveValues | graftr.py:606 | removing a node loses exactly its leaf values |
| Locations.AppendValues | graftr.py:90-91 | `add_child` adds exactly the new child's leaf values |
| Locations.AppendElsewhere | graftr.py:90-91 | `add_child` leaves every node that is not on the path to the group unchanged |
| Locations.ShiftNone | graftr.py:606 | a location is lost by a removal exactly when it lies in the removed subtree |
| Locations.ShiftValid | graftr.py:606 | a node outside the removed subtree still exists after the removal, at its shifted location |
| Locations.ShiftSibling | graftr.py:606 | a node below the removed node's parent but outside the removed subtree keeps its whole subtree, at its shifted location |
| Locations.ShiftNames | graftr.py:452-453 | a node that survives a removal keeps its path of names |
| Locations.AppendGrows | graftr.py:90-91 | `add_child` only grows the tree: every node keeps its location and name |
| Locations.GrowsTrans | graftr.py:148-156 | growth composes across the steps of `insert` |
| Locations.GrowsAt | graftr.py:148-156 | in a grown tree every old node is still there, with the same names above it |
| Tree.Walk | graftr.py:165-173 | the loop of `resolve` ends on an existing node or returns `None` |
| Tree.Resolve | graftr.py:159-174 | `resolve` returns an existing node or `None` |
| Tree.ResolvePath | graftr.py:176-189 | `resolve_path` returns a path that starts with `/` and is built from proper segments |
| Tree.WalkNames | graftr.py:165-173 | the node `resolve` reaches has the names that `resolve_path`'s loop computes from the same parts |
| Tree.ResolveAgrees | graftr.py:159-189 | when `resolve` finds a node, its `full_name` equals `resolve_path` of the same path |
| Tree.WalkSegments | graftr.py:165-173 | walking proper segments from the root reaches a node with exactly those names |
| Tree.ResolvePathRelative | graftr.py:179-180 | a relative path is resolved as the node's `full_name` followed by the path |
| Tree.ResolvePathAbsolute | graftr.py:163-164 | for a path starting with `/` the given node is ignored, by both `resolve` and `resolve_path` |
| Tree.ResolvePathIdempotent | graftr.py:176-189 | resolving an already resolved path changes nothing |
| Tree.DotDotAtRoot | graftr.py:168-169 | `..` at the root stays at the root, for both `resolve` and `resolve_path` |
| Tree.ParentOfTopLevel | graftr.py:168-169 | `..` from a top-level node leads to the root |
| Tree.WalkThroughLeaf | graftr.py:131-132 | a lookup below a `ValueNode` fails |
| Tree.ChildNames | graftr.py:93-97 | stepping to a named child appends that name to the path |
| TreeInsert.NonEmpty | graftr.py:149-150 | `insert` acts only on the non-empty parts of the path |
| TreeInsert.AppendFacts | graftr.py:90-91 | `add_child` grows the tree, keeps the group's names, adds the child's values, and places the child last |
| TreeInsert.Descend | graftr.py:151-155 | one step of `insert` moves to a child of the current group |
| TreeInsert.DescendCases | graftr.py:151-155 | the step reuses the first child of that name, or appends a new empty `PartialNode` |
| TreeInsert.DescendFacts | graftr.py:151-155 | the step only grows the tree, keeps the leaf values, and appends the name to the path |
| TreeInsert.DescendElsewhere | graftr.py:151-155 | the step leaves every node that is not on the current path unchanged |
| TreeInsert.InsertWalk | graftr.py:148-157 | the loop either ends on a group or fails because a `ValueNode` has no `add_child` |
| TreeInsert.Insert | graftr.py:145-157 | `insert` returns the group it added to, or fails with `LeafHasNoAddChild` |
| TreeInsert.InsertWalkNonEmpty | graftr.py:149-150 | empty parts change nothing |
| TreeInsert.InsertWalkNames | graftr.py:148-155 | the group reached has the current names followed by the non-empty parts |
| TreeInsert.InsertWalkGrows | graftr.py:145-157 | `insert` only grows the tree, and adds exactly the inserted node's leaf values |
| TreeInsert.InsertWalkLast | graftr.py:156 | the inserted node is the last child of the returned group |
| TreeInsert.InsertWalkElsewhere | graftr.py:145-157 | nodes off the path to the returned group are unchanged |
| TreeInsert.InsertIntoEmpty | graftr.py:151-154 | below an empty group, every step creates a `PartialNode` and `insert` cannot fail |
| TreeInsert.InsertWalkFails | graftr.py:151-156 | the loop fails exactly when some prefix of the path walks onto a `ValueNode` |
| TreeInsert.NeverFailsThroughCreated | graftr.py:152-154 | once a missing group is created, the rest of the path cannot fail |
| TreeInsert.InsertFails | graftr.py:145-157 | `insert` fails exactly when some prefix of the path resolves to a `ValueNode` |
| TreeInsert.InsertSpec | graftr.py:145-157 | a successful `insert` grows the tree, returns the group named by the path's segments with the node as its last child, adds the node's values, and changes nothing off that path |
| StateDicts.AddDotted | graftr.py:204-214 | the dotted-key branch keeps the group's kind and name, and fails only on the `isinstance` assertion |
| StateDicts.AddItem | graftr.py:199-217 | one popped frame keeps the parent's kind and name, and fails only on the assertion |
| StateDicts.BuildItems | graftr.py:197-217 | processing the frames of one dict keeps the group's kind and name, and fails only on the assertion |
| StateDicts.Build | graftr.py:191-218 | the root is a `DictNode` named `''`; the only possible failure is the assertion |
| StateDicts.Prefixed | graftr.py:123 | every key `k` of the merge becomes `name.k` with the same value, and nothing else is in the result |
| StateDicts.SerializeKeys | graftr.py:110-138 | every key a non-root node serialises to starts with its name; a leaf or `DictNode` gives exactly its name as the one key. With `RoundTrip.MergeKeys`, `RoundTrip.MergeLaterWins`, `StateDicts.Prefixed` and `RoundTrip.RoundTrip` this states what `state_dict` computes |
| RoundTrip.PrefixedUpdate | graftr.py:123 | prefixing commutes with adding a key |
| RoundTrip.MergeKeys | graftr.py:113-114 | a key is in the merge exactly when some child's dict has it |
| RoundTrip.MergeLaterWins | graftr.py:113-114 | a key takes its value from the last child whose dict has it |
| RoundTrip.MergeUpdate | graftr.py:113-114 | replacing one child by a version with one extra fresh key adds just that key to the merge |
| RoundTrip.AddDottedMerge | graftr.py:204-214 | adding a dotted key adds exactly that key and value to the group's serialised dict |
| RoundTrip.PartialGains | graftr.py:118-123 | a `PartialNode` that gains a leaf serialises with the one extra key `name.rest` |
| RoundTrip.AddItemMerge | graftr.py:199-217 | adding one input item adds exactly that item's key and value to the group's serialised dict |
| RoundTrip.NestedMerge | graftr.py:200-203 | a nested dict becomes a `DictNode` whose serialisation is that dict |
| RoundTrip.BuildItemsMerge | graftr.py:197-217 | processing a dict's items adds exactly that dict to the group's serialised dict |
| RoundTrip.RoundTrip | graftr.py:191-218 | when building succeeds on a dict with distinct keys at every level, `state_dict` of the built tree is the input dict |
| RoundTrip.AddDottedOk | graftr.py:206-213 | the dotted branch cannot fail when none of the key's dotted prefixes is already a key of the group |
| RoundTrip.ReusedPartial | graftr.py:207-212 | under that condition, an existing child named by the first chunk is a `PartialNode` |
| RoundTrip.InnerFree | graftr.py:206-213 | the condition carries over to the reused `PartialNode` and the rest of the chunks |
| RoundTrip.DottedPrefix | graftr.py:204-205 | each proper dotted prefix of a key, followed by `.`, starts the key |
| RoundTrip.AddItemOk | graftr.py:199-217 | an item compatible with the group's keys is added without failure |
| RoundTrip.CleanWellFormed | graftr.py:197 | a clean input has distinct keys at every level |
| RoundTrip.BuildItemsOk | graftr.py:197-217 | a clean item list compatible with the group's keys is built without failure |
| RoundTrip.RoundTripClean | graftr.py:191-218 | a clean input always builds, and serialises back to itself |
| RoundTrip.AddDottedValues | graftr.py:214-217 | a dotted key adds exactly its value to the tree's leaves |
| RoundTrip.AddItemValues | graftr.py:199-217 | an item adds exactly its own leaf values |
| RoundTrip.BuildItemsValues | graftr.py:197-217 | processing a dict adds exactly the dict's leaf values |
| RoundTrip.BuildValues | graftr.py:191-218 | a built tree's leaf values are exactly the input's values |
| Commands.ParentAfterRemove | graftr.py:606 | the parent is a group of the same kind that has one child fewer after the removal |
| Commands.RmNode | graftr.py:605-610 | `_rm_node` crashes exactly on the root, which is not among its own parent's children |
| Commands.Top | graftr.py:607-610 | the highest node detached is the node or an ancestor, never the root |
| Commands.PruneTop | graftr.py:607-610 | the pruning loop after a removal equals removing the highest detached node at once |
| Commands.Prune | graftr.py:607-610 | the pruning loop removes only empty groups, so the tree keeps all its leaf values |
| Commands.RmNodeTop | graftr.py:605-610 | `_rm_node` of a non-root node removes exactly the subtree at `Top` |
| Commands.TopShape | graftr.py:608 | everything detached above the node is a non-root `PartialNode` with that one child; the node above `Top` is the root, not a `PartialNode`, or has other children |
| Commands.TopValues | graftr.py:608-610 | the pruned groups hold no leaf values besides the node's own |
| Commands.RmNodeValues | graftr.py:605-610 | `_rm_node` loses exactly the removed node's leaf values |
| Commands.Rm | graftr.py:471-484 | `do_rm` never crashes |
| Commands.RmSpec | graftr.py:476-484 | `rm` refuses exactly a missing path or the root; otherwise it removes the `Top` subtree, loses exactly the node's values, and sets `_dirty` |
| Commands.Check | graftr.py:437-451 | the branch chosen refers to existing nodes, and an existing destination is a group |
| Commands.MoveInto | graftr.py:452-454 | moving into a group always sets `_dirty` |
| Commands.MoveRenamed | graftr.py:456-462 | moving to a new path sets `_dirty`; it crashes on the root in `_rm_node`, and otherwise only in `insert` |
| Commands.MvPlan | graftr.py:440-462 | after the checks, a completed `mv` either changes nothing or sets `_dirty` |
| Commands.Mv | graftr.py:431-462 | a completed `mv` either leaves the session as it was or sets `_dirty` |
| Commands.CpPlan | graftr.py:507-527 | a completed `cp` either changes nothing or sets `_dirty`; it can crash only in `insert` |
| Commands.Cp | graftr.py:498-527 | the same for `do_cp` as a whole |
| Commands.DoRm | graftr.py:471-475 | `do_rm` never crashes, and prints `invalid usage` exactly when the line is not one word followed by whitespace |
| Commands.DoMv | graftr.py:431-435 | a completed `do_mv` changes nothing or sets `_dirty`, and it prints `invalid usage` exactly when the line is not two words separated by whitespace |
| Commands.DoCp | graftr.py:498-502 | the same for `do_cp`, which can crash only in `insert` |
| Commands.RenameMultiple | graftr.py:253-258 | a refused row does not stop the batch: the batch is never refused |
| CommandFacts.NamesPrefix | graftr.py:58-64 | an ancestor's names are a prefix of its descendant's names |
| CommandFacts.InsertPathSegments | graftr.py:146-150 | `insert` on a canonical path acts on exactly its segments |
| CommandFacts.CanonicalResolves | graftr.py:439 | resolving a canonical path walks its segments from the root, and a node found there has exactly those names |
| CommandFacts.GuardedAbove | graftr.py:445 | if the source is an ancestor of the group a path leads to, the subdirectory guard rejects that path |
| CommandFacts.CheckInto | graftr.py:437-453 | in the group branch, the group's `full_name` is the destination, and the group is not inside the source |
| CommandFacts.IntoGuards | graftr.py:437-448 | the group branch was reached because the destination resolved to the group and passed the subdirectory guard |
| CommandFacts.GroupOutsideSource | graftr.py:445-453 | a group that passed the subdirectory guard is not the source or below it |
| CommandFacts.CheckRenamed | graftr.py:455-457 | in the new-path branch, the destination is a canonical path with at least one segment; `_basename` is its last segment and `_dirname` gives the other segments |
| CommandFacts.MvRoot | graftr.py:437-462 | `mv` of the root does nothing exactly for destination `/`, is refused exactly when the destination is an existing leaf, and otherwise crashes in `_rm_node` |
| CommandFacts.RootPlan | graftr.py:437-451 | for a root source the checks do nothing exactly for destination `/`, refuse exactly an existing leaf, and otherwise choose the group or new-path branch with the root as source |
| CommandFacts.MoveIntoKept | graftr.py:452-454 | when pruning does not detach the group, the source ends up as the group's last child with its name, all leaf values are kept, and the tree left by `_rm_node` only grows |
| CommandFacts.AppendedChild | graftr.py:90-91 | after `add_child` the node sits as the group's last child, below the group's names |
| CommandFacts.MoveIntoLost | graftr.py:452-454 | when pruning detaches the group, the tree is just the tree after `_rm_node`: the source's values are gone |
| CommandFacts.LastChildPath | graftr.py:58-64 | the last child of a group named by all but one segment, carrying the last segment's name, has the full path |
| CommandFacts.MoveRenamedSpec | graftr.py:456-461 | a completed move to a new path keeps every leaf value, the renamed source has the destination as its `full_name`, and the tree left by `_rm_node` only grows |
| CommandFacts.MoveRenamedCrash | graftr.py:458-459 | a move to a new path crashes exactly when the dirname reaches a `ValueNode` of the tree left after the detach |
| CommandFacts.MvIntoGroup | graftr.py:437-462 | `mv` into a group that survives pruning places the source under it, keeps all values, sets `_dirty`, and only grows the tree left by `_rm_node` |
| CommandFacts.MvIntoPruned | graftr.py:437-462 | `mv` into a group that pruning detaches leaves the pruned tree and loses the source's values, yet sets `_dirty` |
| CommandFacts.MvRenamed | graftr.py:437-462 | a completed `mv` to a new path keeps all values, the renamed source has the destination as its `full_name`, and the tree left by `_rm_node` only grows |
| CommandFacts.MvRenamedCrash | graftr.py:437-462 | `mv` to a new path crashes exactly when its dirname meets a leaf after the detach, and then the fault is the missing `add_child` |
| CommandFacts.MvValues | graftr.py:431-462 | a completed `mv` never adds leaf values |
| CommandFacts.ChildAppend | graftr.py:90-97 | after `add_child`, `child` still finds an earlier child of the same name first |
| CommandFacts.CpIntoAppends | graftr.py:519-520 | `cp` into a group appends the unrenamed source to that group and sets `_dirty` |
| CommandFacts.CopyInto | graftr.py:519-520 | a copy into a group grows the tree by the source's values, sits last under the group, and leaves the source in place; when the group already has a child of that name, `child` still finds the old one |
| CommandFacts.CpInto | graftr.py:504-520 | `cp` into a group: the same facts, for the group named by the destination path, with `_dirty` set |
| CommandFacts.CopyRenamed | graftr.py:522-526 | a copy to a new path grows the tree by the source's values, leaves the source in place, and has the destination as its `full_name` |
| CommandFacts.CpRenamed | graftr.py:504-527 | `cp` to a new path: the same facts for the command as a whole |
| CommandFacts.CopyRenamedCrash | graftr.py:522-525 | a copy to a new path crashes exactly when its dirname reaches a `ValueNode` |
| CommandFacts.CpRenamedCrash | graftr.py:504-527 | `cp` to a new path crashes exactly when its dirname reaches a `ValueNode` of the unchanged tree |
| CommandFacts.RenameValues | graftr.py:253-258 | a completed batch of renames never adds leaf values |
| CommandFacts.RenameSkipsInvalid | graftr.py:256-258 | a row with an empty first cell, a blank second cell, or any other line that is not two words is skipped and the batch goes on |
| CommandFacts.RenameMatched | graftr.py:256-258 | a row whose joined line matches `do_mv`'s regex, whitespace in the cells included, is `mv` of the two groups from the root, followed by the rest of the batch |
| CommandFacts.RenameWords | graftr.py:256-258 | a row of two words is `mv` of exactly those words from the root, followed by the rest of the batch |
| Scenarios.ChainBuilt | graftr.py:204-217 | `{'a.b.c': 1}` builds a chain of two `PartialNode`s ending in a leaf |
| Scenarios.DottedKeys | graftr.py:205 | dotted keys split into their chunks |
| Scenarios.BuildOrderMatters | graftr.py:197-212 | with `a.b` after `a` in the dict, `a.b` is popped first and the build succeeds; in the other order the leaf `a` exists first and the assertion fails |
| Scenarios.ChainPaths | graftr.py:159-189 | in the chain, `/a/b/c` resolves to the leaf and `/a` to the top group |
| Scenarios.ChainTop | graftr.py:607-610 | detaching `c` from the chain detaches `a`, leaving an empty root |
| Scenarios.MoveIntoPrunedGroup | graftr.py:452-454 | `mv /a/b/c /a` on `{'a.b.c': 1}` empties the tree and marks it dirty: the moved leaf is lost |
| Scenarios.RemovePrunes | graftr.py:480-484 | `rm /a/b/c` on `{'a.b.c': 1}` also prunes `b` and `a` |
| Scenarios.MoveRootCrashes | graftr.py:455-458 | `mv / /x` takes the new-path branch, since `/x` does not exist, and crashes in its `_rm_node` call |
| Scenarios.PairPaths | graftr.py:159-189 | resolving `/x` and `/g` in a tree with a group `g` holding `x` beside a leaf `x` |
| Scenarios.CopyDuplicatesName | graftr.py:519-520 | `cp /x /g` when `g` already holds an `x` appends a second child named `x` |
| Scenarios.CopyUnreachable | graftr.py:93-97 | after that copy, `/g/x` still resolves to the old `x` |
| Scenarios.FlatCheck | graftr.py:437-451 | `mv /b /a/c` with a leaf `a` takes the new-path branch |
| Scenarios.FlatDetached | graftr.py:605-610 | detaching `b` leaves the root with the leaf `a` and prunes nothing |
| Scenarios.MoveBelowLeafCrashes | graftr.py:456-459 | `mv /b /a/c` with a leaf `a` crashes after detaching `b`, because `insert` reaches the leaf |
| Scenarios.BlankCellsSkipped | graftr.py:253-258 | the rows `("", "/x")` and `("/a", "")` leave the `{'a.b.c': 1}` tree as it was, clean |
| Scenarios.SpacedCellMoves | graftr.py:256-258 | the row `("/a", " /z")`, as `csv.reader` reads the line `/a, /z`, matches with the groups `/a` and `/z` and acts as the row `("/a", "/z")` |

## Left out

- Loading and saving with torch, `cmdloop`, the prompts and Ctrl-C handling: these are I/O. `save` and the save at the end of `rename_multiple` are left out for the same reason.
- `shape`, `parameters`, `device`, `_parse_device` and the `pred_*` helpers: they call into torch.
- The `eval`-based `default` handler: it runs arbitrary code.
- Tab completion (`complete_mv`, `complete_rm`, `complete_cp`, `_complete_path`): it only suggests text and does not change the tree.
- `cd`, `ls`, `cat`, `pwd` and `where`: they navigate or print and do not change the tree.
- How `_cwd` follows an edit: the working group is an input location of the current tree. After an `rm` or `mv` the shell's `_cwd` may point at a detached node, and that state is not modelled.
- Reading the CSV in `rename_multiple`: rows are given as (source, destination) pairs, so `assert len(row) == 2` always holds. Each row runs from the root, as in the fresh shell of the script entry point.
- Non-string keys: `child` compares `str(child.name)`, while the model's names are strings.
- Leaf values are an opaque type, so `deepcopy` of a leaf is the leaf itself.
- The explicit stack of `_from_state_dict` is written as recursion in the same LIFO order. The source attaches a `DictNode` to its parent when it pops it, before its children. The model attaches it after its children are built. The final tree is the same, because nothing else is added to that parent in between.
- Commands.RenameMultiple: its contract only says the batch is never refused. What each row does is stated by `CommandFacts.RenameSkipsInvalid` for a row whose line does not match and `CommandFacts.RenameMatched` for a row whose line does, and what the whole batch does to the values by `CommandFacts.RenameValues`.
- StateDicts.AddDotted: the contract states shape and failure kind only. What the branch adds is stated separately by `RoundTrip.AddDottedMerge` and `RoundTrip.AddDottedValues`.
